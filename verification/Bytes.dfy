/** Fixed-width machine integers as subset types of nat, and little-endian byte strings.
    Every assignment to a u64 or u128 variable or array slot is a proof that the C
    expression does not wrap there; where the source wraps on purpose the model says so
    with an explicit `%`. */
module Bytes {
  import opened Arithmetic
  import opened Bits

  type byte = x: nat | x < 0x100
  type u32 = x: nat | x < 0x1_0000_0000
  type u64 = x: nat | x < 0x1_0000_0000_0000_0000
  type u128 = x: nat | x < 0x1_0000_0000_0000_0000_0000_0000_0000_0000

  /** Bitwise-or of two words whose set bits lie on different sides of `unit`, a power of
      two; the precondition is the proof that they do not overlap. */
  function Or(low: nat, high: nat, unit: nat): (r: nat)
    requires low < unit && high % unit == 0
  {
    low + high
  }

  function XorByte(x: byte, y: byte): byte {
    assert Pow2(8) == 0x100;
    XorBelow(x, y, 8);
    Xor(x, y)
  }

  /** Exclusive-or with the same byte twice changes nothing. */
  lemma XorByteTwice(x: byte, y: byte)
    ensures XorByte(XorByte(x, y), y) == x
  {
    XorComm(x, y);
    XorCancels(y, x);
    XorComm(y, Xor(y, x));
    hide Xor;
  }

  lemma Pow2Byte(n: nat)
    ensures Pow2(8 * (n + 1)) == 0x100 * Pow2(8 * n)
  {
    Pow2Add(8, 8 * n);
    assert Pow2(8) == 0x100;
  }

  /** n copies of one byte. */
  function Repeat(c: byte, n: nat): (s: seq<byte>)
    ensures |s| == n
  {
    if n == 0 then [] else [c] + Repeat(c, n - 1)
  }

  /** The number a little-endian byte string stands for. */
  function LE(s: seq<byte>): nat {
    if s == [] then 0 else s[0] + 0x100 * LE(s[1..])
  }

  lemma OneByte(x: byte)
    ensures LE([x]) == x
  {
  }

  /** The n low bytes of v, least significant first. */
  function ToLE(v: nat, n: nat): (s: seq<byte>)
    ensures |s| == n
  {
    if n == 0 then [] else [v % 0x100] + ToLE(v / 0x100, n - 1)
  }

  lemma {:induction false} LEBound(s: seq<byte>)
    ensures LE(s) < Pow2(8 * |s|)
  {
    if s == [] {
    } else {
      hide Pow2;
      LEBound(s[1..]);
      Pow2Byte(|s| - 1);
    }
  }

  lemma {:induction false} LEAppend(a: seq<byte>, b: seq<byte>)
    ensures LE(a + b) == LE(a) + Pow2(8 * |a|) * LE(b)
  {
    if a == [] {
      assert a + b == b;
    } else {
      hide Pow2;
      assert (a + b)[1..] == a[1..] + b;
      LEAppend(a[1..], b);
      Pow2Byte(|a| - 1);
      hide LE;
      MulAssoc(0x100, Pow2(8 * (|a| - 1)), LE(b));
    }
  }

  /** Writing a number that fits and reading it back. */
  lemma {:induction false} LEToLE(v: nat, n: nat)
    requires v < Pow2(8 * n)
    ensures LE(ToLE(v, n)) == v
  {
    if n > 0 {
      Pow2Byte(n - 1);
      LEToLE(v / 0x100, n - 1);
      assert ToLE(v, n)[1..] == ToLE(v / 0x100, n - 1);
    }
  }

  /** Reading a byte string and writing it back. */
  lemma {:induction false} ToLELE(s: seq<byte>)
    ensures ToLE(LE(s), |s|) == s
  {
    if s != [] {
      ToLELE(s[1..]);
      assert LE(s) % 0x100 == s[0] && LE(s) / 0x100 == LE(s[1..]);
    }
  }

  /** Byte strings of equal length are equal exactly when their values are. */
  lemma LEInjective(a: seq<byte>, b: seq<byte>)
    requires |a| == |b| && LE(a) == LE(b)
    ensures a == b
  {
    ToLELE(a);
    ToLELE(b);
  }

  lemma {:induction false} ToLEIndex(v: nat, n: nat, k: nat)
    requires k < n
    ensures ToLE(v, n)[k] == Shr(v, 8 * k) % 0x100
  {
    if k == 0 {
    } else {
      hide Pow2;
      ToLEIndex(v / 0x100, n - 1, k - 1);
      Pow2Byte(k - 1);
      DivDiv(v, 0x100, Pow2(8 * (k - 1)));
    }
  }

  /** A run of one byte is a geometric sum. */
  lemma {:induction false} RepeatValue(c: byte, n: nat)
    ensures 0xff * LE(Repeat(c, n)) == c as nat * (Pow2(8 * n) - 1)
  {
    if n > 0 {
      RepeatValue(c, n - 1);
      Pow2Byte(n - 1);
      assert Repeat(c, n)[1..] == Repeat(c, n - 1);
      hide Pow2;
      RepeatStep(c, Pow2(8 * (n - 1)), LE(Repeat(c, n - 1)));
    }
  }

  lemma RepeatStep(c: int, w: int, v: int)
    requires 0xff * v == c * (w - 1)
    ensures 0xff * (c + 0x100 * v) == c * (0x100 * w - 1)
  {
    assert c * (w - 1) == c * w - c;
    assert c * (0x100 * w - 1) == 0x100 * (c * w) - c;
  }

  /** Bit i of a byte string, lowest first: the test every scalar loop makes. */
  function Bit(s: seq<byte>, i: nat): (b: nat)
    requires i < 8 * |s|
  {
    Shr(s[i / 8], i % 8) % 2
  }

  /** The byte-and-shift test reads bit i of the little-endian number. */
  lemma {:induction false} BitIsBit(s: seq<byte>, i: nat)
    requires i < 8 * |s|
    ensures Bit(s, i) == Shr(LE(s), i) % 2
  {
    hide Pow2, Shr;
    var r := LE(s[1..]);
    if i < 8 {
      LowBit(s[0], r, i);
    } else {
      BitIsBit(s[1..], i - 8);
      assert Bit(s, i) == Bit(s[1..], i - 8);
      ShiftByte(s[0], r, i);
    }
  }

  /** Shifting by a whole byte drops the byte. */
  lemma ShiftByte(b: byte, r: nat, i: nat)
    requires i >= 8
    ensures Shr(b + 0x100 * r, i) == Shr(r, i - 8)
  {
    Pow2Add(8, i - 8);
    assert Pow2(8) == 0x100;
    hide Pow2;
    DivDiv(b + 0x100 * r, 0x100, Pow2(i - 8));
  }

  lemma MulShuffle(p: int, h: int, r: int)
    ensures (p * (2 * h)) * r == (2 * (h * r)) * p
  {
  }

  lemma ShiftedMultiple(b: nat, r: nat, p: nat, h: nat)
    requires p > 0
    ensures (b + (p * (2 * h)) * r) / p % 2 == b / p % 2
  {
    MulShuffle(p, h, r);
    MultipleDrops(b, p, 2 * (h * r));
    EvenDrops(b / p, h * r);
  }

  lemma MultipleDrops(b: int, p: nat, t: int)
    requires p > 0
    ensures (b + t * p) / p == b / p + t
  {
    DivMod(b, p);
    MulAdd(b / p, t, p);
    DivModUnique(b + t * p, p, b / p + t, b % p);
  }

  lemma EvenDrops(q: int, u: int)
    ensures (q + 2 * u) % 2 == q % 2
  {
  }

  lemma LowBit(b: byte, r: nat, i: nat)
    requires i < 8
    ensures Shr(b + 0x100 * r, i) % 2 == Shr(b, i) % 2
  {
    var p, h := Pow2(i), Pow2(7 - i);
    assert p * (2 * h) == 0x100 by {
      Pow2Add(i, 8 - i);
      assert Pow2(8) == 0x100;
    }
    hide Pow2;
    ShiftedMultiple(b, r, p, h);
  }
}
