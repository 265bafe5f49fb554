/** src/fe25519.c, serialisation: 32 little-endian bytes to limbs and back, and the tests
    that go through the canonical encoding. */
module FeBytes {
  import opened Arithmetic
  import opened Bits
  import opened Bytes
  import opened Field
  import opened Fe25519

  const T12: nat := 0x1000
  const T13: nat := 0x2000
  const T25: nat := 0x200_0000
  const T26: nat := 0x400_0000
  const T38: nat := 0x40_0000_0000
  const T39: nat := 0x80_0000_0000
  const T51: nat := 0x8_0000_0000_0000
  const T64: nat := 0x1_0000_0000_0000_0000
  const T128: nat := T64 * T64
  const T192: nat := T64 * T128

  /** The number four 64-bit words stand for. */
  function Words(x0: nat, x1: nat, x2: nat, x3: nat): nat {
    x0 + T64 * x1 + T128 * x2 + T192 * x3
  }

  /** Eight bytes assembled into a word by shifts and ors. */
  function Word(b: seq<byte>): u64
    requires |b| == 8
  {
    Or(Half(b[..4]), Half(b[4..]) * 0x1_0000_0000, 0x1_0000_0000)
  }

  function Half(b: seq<byte>): u32
    requires |b| == 4
  {
    Or(Or(Or(b[0], b[1] as nat * 0x100, 0x100), b[2] as nat * 0x1_0000, 0x1_0000), b[3] as nat * 0x100_0000, 0x100_0000)
  }

  lemma HalfIsLE(b: seq<byte>)
    requires |b| == 4
    ensures Half(b) == LE(b)
  {
    var r0, r1, r2, r3 := LE(b), LE(b[1..]), LE(b[2..]), LE(b[3..]);
    assert b[1..][1..] == b[2..] && b[2..][1..] == b[3..] && b[3..] == [b[3]];
    assert LE([b[3]]) == b[3];
    assert r3 == b[3] && r2 == b[2] as nat + 0x100 * r3 && r1 == b[1] as nat + 0x100 * r2;
    hide LE;
  }

  lemma WordIsLE(b: seq<byte>)
    requires |b| == 8
    ensures Word(b) == LE(b)
  {
    hide LE, Half;
    HalfIsLE(b[..4]);
    HalfIsLE(b[4..]);
    assert b == b[..4] + b[4..];
    HalfAppend(b[..4], b[4..]);
  }

  lemma HalfAppend(a: seq<byte>, b: seq<byte>)
    requires |a| == 4
    ensures LE(a + b) == LE(a) + 0x1_0000_0000 * LE(b)
  {
    assert Pow2(8 * |a|) == 0x1_0000_0000 by { Pow2Values(); }
    hide LE, Pow2;
    LEAppend(a, b);
  }

  lemma WordsAreLE(b: seq<byte>)
    requires |b| == 32
    ensures Words(LE(b[..8]), LE(b[8..16]), LE(b[16..24]), LE(b[24..])) == LE(b)
  {
    hide LE, Pow2;
    assert b == b[..8] + b[8..] && b[8..] == b[8..16] + b[16..] && b[16..] == b[16..24] + b[24..];
    WordAppend(b[..8], b[8..]);
    WordAppend(b[8..16], b[16..]);
    WordAppend(b[16..24], b[24..]);
  }

  /** A 64-bit word in front of a byte string. */
  lemma WordAppend(a: seq<byte>, b: seq<byte>)
    requires |a| == 8
    ensures LE(a + b) == LE(a) + T64 * LE(b)
  {
    assert Pow2(8 * |a|) == T64 by { Pow2Values(); }
    hide LE, Pow2;
    LEAppend(a, b);
  }

  // ---------- bytes to limbs ----------

  function Limb0(x0: u64): u64 { x0 % T51 }
  function Limb1(x0: u64, x1: u64): u64 { Or(x0 / T51, x1 * T13 % T64, T13) % T51 }
  function Limb2(x1: u64, x2: u64): u64 { Or(x1 / T38, x2 * T26 % T64, T26) % T51 }
  function Limb3(x2: u64, x3: u64): u64 { Or(x2 / T25, x3 * T39 % T64, T39) % T51 }
  function Limb4(x3: u64): u64 { x3 / T12 % T51 }

  lemma Limb0Is(x0: u64)
    ensures Limb0(x0) == x0 % T51 < T51
  {
  }

  lemma Limb1Is(x0: u64, x1: u64)
    ensures Limb1(x0, x1) == x0 / T51 + T13 * (x1 % T38) < T51
  {
  }

  lemma Limb2Is(x1: u64, x2: u64)
    ensures Limb2(x1, x2) == x1 / T38 + T26 * (x2 % T25) < T51
  {
  }

  lemma Limb3Is(x2: u64, x3: u64)
    ensures Limb3(x2, x3) == x2 / T25 + T39 * (x3 % T12) < T51
  {
  }

  lemma Limb4Is(x3: u64)
    ensures Limb4(x3) == x3 / T12 - T51 * (x3 / 0x8000_0000_0000_0000) < T51
  {
  }

  /** Splitting four words at the 51-bit marks drops only bit 255. */
  lemma SplitMeaning(x0: u64, x1: u64, x2: u64, x3: u64)
    ensures Weigh(Limb0(x0), Limb1(x0, x1), Limb2(x1, x2), Limb3(x2, x3), Limb4(x3))
      == Words(x0, x1, x2, x3) % W5
    ensures Below51([Limb0(x0), Limb1(x0, x1), Limb2(x1, x2), Limb3(x2, x3), Limb4(x3)])
  {
    hide Limb0, Limb1, Limb2, Limb3, Limb4;
    Limb0Is(x0);
    Limb1Is(x0, x1);
    Limb2Is(x1, x2);
    Limb3Is(x2, x3);
    Limb4Is(x3);
    var l0, l1, l2, l3, l4 := Limb0(x0), Limb1(x0, x1), Limb2(x1, x2), Limb3(x2, x3), Limb4(x3);
    var q0, q1, q2, q3, h := x0 / T51, x1 / T38, x2 / T25, x3 / T12, x3 / 0x8000_0000_0000_0000;
    assert x0 == l0 + T51 * q0;
    assert x1 == x1 % T38 + T38 * q1;
    assert x2 == x2 % T25 + T25 * q2;
    assert x3 == x3 % T12 + T12 * q3;
    SplitSum(x0, x1, x2, x3, l0, l1, l2, l3, l4, q0, q1, q2, q3, x1 % T38, x2 % T25, x3 % T12, h);
  }

  lemma SplitSum(x0: nat, x1: nat, x2: nat, x3: nat, l0: nat, l1: nat, l2: nat, l3: nat, l4: nat,
                 q0: int, q1: int, q2: int, q3: int, m1: int, m2: int, m3: int, h: nat)
    requires l0 < T51 && l1 < T51 && l2 < T51 && l3 < T51 && l4 < T51
    requires x0 == l0 + T51 * q0 && x1 == m1 + T38 * q1 && x2 == m2 + T25 * q2 && x3 == m3 + T12 * q3
    requires l1 == q0 + T13 * m1 && l2 == q1 + T26 * m2 && l3 == q2 + T39 * m3 && l4 == q3 - T51 * h
    ensures Weigh(l0, l1, l2, l3, l4) == Words(x0, x1, x2, x3) % W5
  {
    assert Words(x0, x1, x2, x3) == h * W5 + Weigh(l0, l1, l2, l3, l4);
    DivModUnique(Words(x0, x1, x2, x3), W5, h, Weigh(l0, l1, l2, l3, l4));
  }

  method FromBytes(out: array<u64>, b: seq<byte>)
    requires out.Length == 5 && |b| == 32
    modifies out
    ensures Below51(out[..])
    ensures Val(out[..]) == LE(b) % W5
  {
    hide Word, LE, Words, Weigh, Limb0, Limb1, Limb2, Limb3, Limb4;
    var x := LoadWords(b);
    WordsAreLE(b);
    SplitMeaning(x[0], x[1], x[2], x[3]);
    out[0] := Limb0(x[0]);
    out[1] := Limb1(x[0], x[1]);
    out[2] := Limb2(x[1], x[2]);
    out[3] := Limb3(x[2], x[3]);
    out[4] := Limb4(x[3]);
    assert out[..] == [Limb0(x[0]), Limb1(x[0], x[1]), Limb2(x[1], x[2]), Limb3(x[2], x[3]), Limb4(x[3])];
  }

  /** The four 64-bit little-endian words of the string. */
  method LoadWords(b: seq<byte>) returns (x: array<u64>)
    requires |b| == 32
    ensures fresh(x) && x.Length == 4
    ensures x[0] == LE(b[..8]) && x[1] == LE(b[8..16]) && x[2] == LE(b[16..24]) && x[3] == LE(b[24..])
  {
    hide Word, LE;
    x := new u64[4];
    var i := 0;
    while i < 4
      invariant 0 <= i <= 4
      invariant forall k :: 0 <= k < i ==> x[k] == LE(b[8 * k..8 * k + 8])
    {
      WordIsLE(b[8 * i..8 * i + 8]);
      x[i] := Word(b[8 * i..8 * i + 8]);
      i := i + 1;
    }
    assert b[8 * 0..8 * 0 + 8] == b[..8] && b[8 * 1..8 * 1 + 8] == b[8..16];
    assert b[8 * 2..8 * 2 + 8] == b[16..24] && b[8 * 3..8 * 3 + 8] == b[24..];
  }

  // ---------- limbs to bytes ----------

  /** After one pass the excess over 2^51 is at most 19 * 8; a second pass removes it. */
  lemma TwoPasses(a: Limbs)
    requires MaxLimb(a) < TWO54
    ensures var v := CarryPass(a);
      && PassReady(a) && PassReady(v)
      && Below51(CarryPass(v)) && Eq(Val(CarryPass(v)), Val(a))
  {
    LimbsBelowMax(a);
    CarryRange(a);
    var v := CarryPass(a);
    assert v[0] < LIMB + 153 && v[1] < LIMB && v[2] < LIMB && v[3] < LIMB && v[4] < LIMB by { hide Carry, MaxLimb; }
    PassMeaning(a);
    PassMeaning(v);
    hide CarryPass, Val, MaxLimb;
    EqTrans(Val(CarryPass(v)), Val(v), Val(a));
    SecondPass(v);
  }

  lemma SecondPass(v: Limbs)
    requires v[0] < LIMB + 153 && v[1] < LIMB && v[2] < LIMB && v[3] < LIMB && v[4] < LIMB
    ensures Below51(CarryPass(v))
  {
    CarryRange(v);
    DigitsBelow(v);
    assert Carry(v, 5) <= 1;
    if Carry(v, 5) == 1 {
      assert Carry(v, 4) == 1 && Carry(v, 3) == 1 && Carry(v, 2) == 1 && Carry(v, 1) == 1;
    }
  }

  function PlusNineteen(v: Limbs): Limbs { v[0 := v[0] + 19] }

  function Chosen(v: Limbs): Limbs {
    var w := PlusNineteen(v);
    if Carry(w, 5) == 0 then v else Digits(w)
  }

  /** Adding 19 carries out of bit 255 exactly when the value is at least p, and then leaves
      the value minus p. */
  lemma SubtractOnce(v: Limbs)
    requires Below51(v)
    ensures Below51(Chosen(v)) && Val(Chosen(v)) == Val(v) % P
  {
    hide Carry, Digits, Digit, Val, Below51;
    var w := PlusNineteen(v);
    DigitsBelow(w);
    TopCarry(v);
    CarryOut(w);
    NineteenMore(v);
    BelowValue(v);
    BelowValue(Digits(w));
    SubtractValue(Val(v), Val(Digits(w)), Carry(w, 5));
  }

  lemma SubtractValue(x: nat, y: nat, c: nat)
    requires x < W5 && y < W5 && c <= 1 && x + 19 == y + W5 * c
    ensures x % P == if c == 0 then x else y
  {
    PValue();
    DivModUnique(x, P, c, if c == 0 then x else y);
  }

  lemma CarryOut(v: Limbs)
    ensures Val(v) == Val(Digits(v)) + W5 * Carry(v, 5)
  {
    CarryMeaning(v);
    hide Carry, Digit;
  }

  lemma NineteenMore(v: Limbs)
    ensures Val(PlusNineteen(v)) == Val(v) + 19
  {
  }

  lemma TopCarry(v: Limbs)
    requires Below51(v)
    ensures Carry(PlusNineteen(v), 5) <= 1
  {
    CarryRange(PlusNineteen(v));
    hide Carry, Digit;
  }

  lemma BelowValue(v: Limbs)
    requires Below51(v)
    ensures Val(v) < W5
  {
  }

  /** (a & ~mask) | (b & mask) for the all-ones and the zero mask. */
  function Select(mask: u64, a: u64, b: u64): nat
    requires mask <= ONES
  {
    And(ONES - mask, a) + And(mask, b)
  }

  lemma SelectMeaning(a: u64, b: u64)
    ensures Select(0, a, b) == a && Select(ONES, a, b) == b
  {
    Pow2Values();
    AndOnes(a, 64);
    AndOnes(b, 64);
  }

  /** Replaces the limbs by the sum with 19 exactly when that sum carries out of bit 255. */
  method ConditionalSubtract(a: array<u64>)
    requires a.Length == 5 && Below51(a[..])
    modifies a
    ensures Below51(a[..]) && Val(a[..]) == old(Val(a[..])) % P
  {
    hide Below51, Val, Digits, Carry, PlusNineteen;
    ghost var v: Limbs := a[..];
    SubtractOnce(v);
    var t := new u64[5];
    var c := ProbeCarry(t, a);
    SelectLimbs(a, t, c);
    assert a[..] == Chosen(v);
  }

  method SelectLimbs(a: array<u64>, t: array<u64>, c: u64)
    requires a.Length == 5 && t.Length == 5 && a != t
    modifies a
    ensures a[..] == if c == 0 then old(a[..]) else t[..]
  {
    ghost var v := a[..];
    var mask: u64 := if c == 0 then 0 else ONES;
    var i := 0;
    while i < 5
      invariant 0 <= i <= 5
      invariant forall k :: 0 <= k < i ==> a[k] == if c == 0 then v[k] else t[k]
      invariant forall k :: i <= k < 5 ==> a[k] == v[k]
    {
      SelectMeaning(a[i], t[i]);
      hide Select;
      a[i] := Select(mask, a[i], t[i]);
      i := i + 1;
    }
  }

  method ProbeCarry(t: array<u64>, a: array<u64>) returns (c: u64)
    requires t.Length == 5 && a.Length == 5 && t != a && Below51(a[..])
    modifies t
    ensures t[..] == Digits(PlusNineteen(a[..])) && c == Carry(PlusNineteen(a[..]), 5)
  {
    hide Carry, Digit, Digits;
    ghost var w := PlusNineteen(a[..]);
    t[0] := a[0] + 19;
    CarryRange(w);
    c := t[0] / LIMB; t[0] := t[0] % LIMB;
    var i := 1;
    while i < 5
      invariant 1 <= i <= 5
      invariant c == Carry(w, i) && c < 0x2000
      invariant forall k :: 0 <= k < i ==> t[k] == Digit(w, k)
    {
      CarryStep(w, i);
      t[i] := a[i] + c;
      c := t[i] / LIMB;
      t[i] := t[i] % LIMB;
      i := i + 1;
    }
    DigitsAre(w, t[..]);
  }

  // ---------- packing ----------

  function Pack0(v: Limbs): nat
    requires Below51(v)
  { Or(v[0], v[1] * T51 % T64, T51) }

  function Pack1(v: Limbs): nat
    requires Below51(v)
  { Or(v[1] / T13, v[2] * T38 % T64, T38) }

  function Pack2(v: Limbs): nat
    requires Below51(v)
  { Or(v[2] / T26, v[3] * T25 % T64, T25) }

  function Pack3(v: Limbs): nat
    requires Below51(v)
  { Or(v[3] / T39, v[4] * T12 % T64, T12) }

  /** Repacking 51-bit limbs into 64-bit words keeps the value. */
  lemma PackMeaning(v: Limbs)
    requires Below51(v)
    ensures Pack0(v) < 0x1_0000_0000_0000_0000 && Pack1(v) < 0x1_0000_0000_0000_0000
    ensures Pack2(v) < 0x1_0000_0000_0000_0000 && Pack3(v) < 0x1_0000_0000_0000_0000
    ensures Words(Pack0(v), Pack1(v), Pack2(v), Pack3(v)) == Val(v)
  {
    hide Pack0, Pack1, Pack2, Pack3;
    Pack0Is(v);
    Pack1Is(v);
    Pack2Is(v);
    Pack3Is(v);
    var l1, l2, l3 := v[1], v[2], v[3];
    assert l1 == l1 % T13 + T13 * (l1 / T13);
    assert l2 == l2 % T26 + T26 * (l2 / T26);
    assert l3 == l3 % T39 + T39 * (l3 / T39);
  }

  lemma Pack0Is(v: Limbs)
    requires Below51(v)
    ensures Pack0(v) == v[0] + T51 * (v[1] % T13) < T64
  {
  }

  lemma Pack1Is(v: Limbs)
    requires Below51(v)
    ensures Pack1(v) == v[1] / T13 + T38 * (v[2] % T26) < T64
  {
  }

  lemma Pack2Is(v: Limbs)
    requires Below51(v)
    ensures Pack2(v) == v[2] / T26 + T25 * (v[3] % T39) < T64
  {
  }

  lemma Pack3Is(v: Limbs)
    requires Below51(v)
    ensures Pack3(v) == v[3] / T39 + T12 * v[4] < T64
  {
  }

  /** Writes a word as eight bytes, the lowest first. */
  method PutWord(out: array<byte>, i: nat, x: u64)
    requires out.Length == 32 && i < 4
    modifies out
    ensures out[..] == old(out[..8 * i]) + ToLE(x, 8) + old(out[8 * i + 8..])
  {
    hide Shr, Pow2;
    ghost var was := out[..];
    var j := 0;
    while j < 8
      invariant 0 <= j <= 8
      invariant forall k :: 0 <= k < j ==> out[8 * i + k] == ToLE(x, 8)[k]
      invariant forall k :: 0 <= k < 8 * i || 8 * i + j <= k < 32 ==> out[k] == was[k]
    {
      ToLEIndex(x, 8, j);
      out[8 * i + j] := Shr(x, 8 * j) % 0x100;
      j := j + 1;
    }
  }

  lemma WordRoundTrip(x: u64, n: nat)
    requires n == 8
    ensures LE(ToLE(x, n)) == x
  {
    assert Pow2(8 * n) == T64 by { Pow2Values(); }
    LEToLE(x, n);
    hide Pow2;
  }

  lemma BytesMeaning(s: seq<byte>, x0: u64, x1: u64, x2: u64, x3: u64)
    requires s == ToLE(x0, 8) + ToLE(x1, 8) + ToLE(x2, 8) + ToLE(x3, 8)
    ensures s == ToLE(Words(x0, x1, x2, x3), 32)
  {
    hide *;
    WordRoundTrip(x0, 8);
    WordRoundTrip(x1, 8);
    WordRoundTrip(x2, 8);
    WordRoundTrip(x3, 8);
    WordsAreLE(s);
    assert s[..8] == ToLE(x0, 8) && s[8..16] == ToLE(x1, 8) && s[16..24] == ToLE(x2, 8) && s[24..] == ToLE(x3, 8);
    ToLELE(s);
  }

  /** Two carry passes and the conditional subtraction leave the least residue. */
  method Canonicalise(t: array<u64>)
    requires t.Length == 5 && MaxLimb(t[..]) < TWO54
    modifies t
    ensures Below51(t[..]) && Val(t[..]) == old(Fe(t[..]))
  {
    hide *;
    TwoPasses(t[..]);
    CanonicalIs(t[..]);
    CarryOnce(t);
    CarryOnce(t);
    ConditionalSubtract(t);
  }

  lemma CanonicalIs(a: Limbs)
    requires Eq(Val(CarryPass(CarryPass(a))), Val(a))
    ensures Val(CarryPass(CarryPass(a))) % P == Fe(a)
  {
    hide CarryPass, Val, Residue, Eq;
    EqIff(Val(CarryPass(CarryPass(a))), Val(a));
    FeIsResidue(a);
  }

  method PackBytes(out: array<byte>, t: array<u64>)
    requires out.Length == 32 && t.Length == 5 && Below51(t[..])
    modifies out
    ensures out[..] == ToLE(Val(t[..]), 32)
  {
    hide *;
    PackMeaning(t[..]);
    var x0, x1, x2, x3 := Pack0(t[..]), Pack1(t[..]), Pack2(t[..]), Pack3(t[..]);
    PutWord(out, 0, x0);
    PutWord(out, 1, x1);
    PutWord(out, 2, x2);
    PutWord(out, 3, x3);
    assert out[..] == ToLE(x0, 8) + ToLE(x1, 8) + ToLE(x2, 8) + ToLE(x3, 8);
    BytesMeaning(out[..], x0, x1, x2, x3);
  }

  /** The canonical little-endian encoding of the residue. */
  method ToBytes(out: array<byte>, a: array<u64>)
    requires out.Length == 32 && a.Length == 5 && MaxLimb(a[..]) < TWO54
    modifies out
    ensures out[..] == ToLE(Fe(a[..]), 32)
  {
    hide *;
    var t := new u64[5];
    Copy(t, a);
    Canonicalise(t);
    PackBytes(out, t);
  }

  const W248: nat := 0x100_0000_0000_0000_0000_0000_0000_0000_0000_0000_0000_0000_0000_0000_0000_0000

  /** The last byte carries weight 2^248. */
  lemma LastByte(b: seq<byte>)
    requires |b| == 32
    ensures LE(b) == LE(b[..31]) + W248 * b[31] && LE(b[..31]) < W248
  {
    hide LE, Pow2;
    var low := b[..31];
    assert b == low + [b[31]];
    LastWeight(8 * |low|);
    LEBound(low);
    LEAppend(low, [b[31]]);
    OneByte(b[31]);
  }

  lemma LastWeight(n: nat)
    requires n == 248
    ensures Pow2(n) == W248
  {
    Pow2Values();
    Pow2Add(192, 32);
    Pow2Add(224, 16);
    Pow2Add(240, 8);
    hide Pow2;
  }

  /** Distinct field elements have distinct encodings. */
  lemma EncodingInjective(x: Fp, y: Fp)
    requires ToLE(x, 32) == ToLE(y, 32)
    ensures x == y
  {
    EncodingRoundTrip(x);
    EncodingRoundTrip(y);
    hide ToLE, LE;
  }

  /** `tobytes` then `frombytes` keeps the field element. */
  lemma EncodingRoundTrip(x: Fp)
    ensures LE(ToLE(x, 32)) == x && LE(ToLE(x, 32)) % W5 == x
  {
    hide LE, ToLE, Pow2;
    PValue();
    FieldFits(x, 32);
    LEToLE(x, 32);
  }

  lemma FieldFits(x: nat, n: nat)
    requires n == 32 && x < 2 * W5
    ensures x < Pow2(8 * n)
  {
    Pow2Values();
    hide Pow2;
  }

  // ---------- inversion and tests through the encoding ----------

  method Invert(out: array<u64>, a: array<u64>)
    requires out.Length == 5 && a.Length == 5 && MaxLimb(a[..]) < TWO54
    modifies out
    ensures Reduced(out[..]) && Fe(out[..]) == FInv(old(Fe(a[..])))
  {
    hide FPow, Fe, Reduced, MaxLimb, LE, Residue;
    ExponentTables();
    var e := P_MINUS_2;
    Pow(out, a, e);
  }

  method IsZero(a: array<u64>) returns (z: bool)
    requires a.Length == 5 && MaxLimb(a[..]) < TWO54
    ensures z <==> Fe(a[..]) == 0
  {
    hide *;
    var b := new byte[32];
    ToBytes(b, a);
    var acc: byte := 0;
    var i := 0;
    while i < 32
      invariant 0 <= i <= 32 && b[..] == ToLE(Fe(a[..]), 32)
      invariant acc == 0 <==> forall k :: 0 <= k < i ==> b[k] == 0
    {
      IorByte(acc, b[i]);
      acc := Ior(acc, b[i]);
      i := i + 1;
    }
    z := acc == 0;
    ZeroEncoding(Fe(a[..]), b[..]);
  }

  lemma IorByte(x: byte, y: byte)
    ensures Ior(x, y) < 0x100 && (Ior(x, y) == 0 <==> x == 0 && y == 0)
  {
    assert Pow2(8) == 0x100;
    IorBelow(x, y, 8);
    IorZero(x, y);
  }

  lemma ZeroEncoding(x: Fp, s: seq<byte>)
    requires s == ToLE(x, 32)
    ensures x == 0 <==> forall k :: 0 <= k < 32 ==> s[k] == 0
  {
    hide ToLE;
    AllZero(32);
    if forall k :: 0 <= k < 32 ==> s[k] == 0 {
      assert s == ToLE(0, 32);
      EncodingInjective(x, 0);
    }
  }

  lemma {:induction false} AllZero(n: nat)
    ensures forall k :: 0 <= k < n ==> ToLE(0, n)[k] == 0
  {
    if n > 0 { AllZero(n - 1); }
  }

  method Parity(a: array<u64>) returns (p: nat)
    requires a.Length == 5 && MaxLimb(a[..]) < TWO54
    ensures p == Fe(a[..]) % 2
  {
    hide *;
    var b := new byte[32];
    ToBytes(b, a);
    FirstByte(Fe(a[..]));
    p := b[0] % 2;
  }

  lemma FirstByte(x: nat)
    ensures ToLE(x, 32)[0] % 2 == x % 2
  {
    assert ToLE(x, 32)[0] == x % 0x100;
    hide ToLE;
  }

  method Equal(a: array<u64>, b: array<u64>) returns (e: bool)
    requires a.Length == 5 && MaxLimb(a[..]) < TWO54
    requires b.Length == 5 && MaxLimb(b[..]) < TWO54
    ensures e <==> Fe(a[..]) == Fe(b[..])
  {
    hide *;
    var ba, bb := new byte[32], new byte[32];
    ToBytes(ba, a);
    ToBytes(bb, b);
    e := SameBytes(ba[..], bb[..]);
    if e { EncodingInjective(Fe(a[..]), Fe(b[..])); }
  }

  /** Collects the differences of all bytes; none is left exactly when the strings are equal. */
  method SameBytes(a: seq<byte>, b: seq<byte>) returns (same: bool)
    requires |a| == |b|
    ensures same <==> a == b
  {
    hide *;
    var diff: byte := 0;
    var i := 0;
    while i < |a|
      invariant 0 <= i <= |a|
      invariant diff == 0 <==> a[..i] == b[..i]
    {
      XorByteZero(a[i], b[i]);
      IorByte(diff, Xor(a[i], b[i]));
      diff := Ior(diff, Xor(a[i], b[i]));
      assert a[..i + 1] == a[..i] + [a[i]] && b[..i + 1] == b[..i] + [b[i]];
      i := i + 1;
    }
    assert a[..i] == a && b[..i] == b;
    same := diff == 0;
  }

  lemma XorByteZero(x: byte, y: byte)
    ensures Xor(x, y) < 0x100 && (Xor(x, y) == 0 <==> x == y)
  {
    assert Pow2(8) == 0x100;
    XorBelow(x, y, 8);
    XorIsZero(x, y);
  }

  /** out = -a: 0 + 2p - a, so the result is at most 2p in each limb. */
  method Neg(out: array<u64>, a: array<u64>)
    requires out.Length == 5 && a.Length == 5 && AtMost2P(a[..])
    modifies out
    ensures AtMost2P(out[..]) && Fe(out[..]) == FNeg(old(Fe(a[..])))
  {
    hide Fe, MaxLimb, AtMost2P, FSub, Residue;
    var zero := new u64[5];
    FromU64(zero, 0);
    SmallValue(0);
    Sub(out, zero, a);
  }
}
