/** src/ed25519.c, scalar arithmetic modulo the group order L: four 64-bit words reduced one
    bit at a time, and the 64-byte schoolbook product. */
module Scalar {
  import opened Arithmetic
  import opened Bytes
  import FeBytes

  const L: nat := 0x1000_0000_0000_0000_0000_0000_0000_0000_14de_f9de_a2f7_9cd6_5812_631a_5cf5_d3ed
  const T64: nat := 0x1_0000_0000_0000_0000
  const T128: nat := T64 * T64
  const T192: nat := T64 * T128
  const T256: nat := T64 * T192

  /** The order of the base point as section 5.1 of RFC 8032 writes it. */
  lemma OrderValue()
    ensures L == Pow2(252) + 27742317777372353535851937790883648493
  {
    Pow2Values();
    hide Pow2;
    Pow2Double(254);
    Pow2Double(253);
    Pow2Double(252);
  }

  /** L in 64-bit little-endian words. */
  const SC_L: seq<u64> := [0x5812_631a_5cf5_d3ed, 0x14de_f9de_a2f7_9cd6, 0, 0x1000_0000_0000_0000]

  type Quad = s: seq<nat> | |s| == 4 witness [0, 0, 0, 0]

  function Val4(s: Quad): nat { s[0] + T64 * s[1] + T128 * s[2] + T192 * s[3] }

  predicate AreWords(s: Quad) { s[0] < T64 && s[1] < T64 && s[2] < T64 && s[3] < T64 }

  lemma OrderWords()
    ensures Val4(SC_L) == L && AreWords(SC_L)
  {
  }

  // ---------- comparison and subtraction of four words ----------

  lemma CompareAt(a: Quad, b: Quad, i: nat)
    requires AreWords(a) && AreWords(b) && i < 4
    requires forall k :: i < k < 4 ==> a[k] == b[k]
    ensures a[i] > b[i] ==> Val4(a) > Val4(b)
    ensures a[i] < b[i] ==> Val4(a) < Val4(b)
  {
    var d0: int, d1: int, d2: int, d3: int  :=
      a[0] as int - b[0], a[1] as int - b[1], a[2] as int - b[2], a[3] as int - b[3];
    LeadingWord(d0, d1, d2, d3, i);
    LeadingWord(-d0, -d1, -d2, -d3, i);
    assert Val4(a) as int - Val4(b) == d0 + T64 * d1 + T128 * d2 + T192 * d3;
  }

  /** The sign of a four-word difference is the sign of its leading nonzero word. */
  lemma LeadingWord(d0: int, d1: int, d2: int, d3: int, i: nat)
    requires d0 + T64 > 0 && d1 + T64 > 0 && d2 + T64 > 0
    requires i < 4 && (i < 3 ==> d3 == 0) && (i < 2 ==> d2 == 0) && (i < 1 ==> d1 == 0)
    ensures (if i == 0 then d0 else if i == 1 then d1 else if i == 2 then d2 else d3) > 0
      ==> d0 + T64 * d1 + T128 * d2 + T192 * d3 > 0
  {
  }

  /** a >= b, most significant word first. */
  method Ge4(a: seq<u64>, b: seq<u64>) returns (ge: bool)
    requires |a| == 4 && |b| == 4
    ensures ge <==> Val4(a) >= Val4(b)
  {
    hide Val4;
    var i := 4;
    while i > 0
      invariant 0 <= i <= 4
      invariant forall k :: i <= k < 4 ==> a[k] == b[k]
    {
      i := i - 1;
      CompareAt(a, b, i);
      if a[i] > b[i] { return true; }
      if a[i] < b[i] { return false; }
    }
    assert a == b;
    return true;
  }

  /** One word of the subtraction, with the borrow the source derives from two wrapped
      comparisons. */
  function SubWord(x: u64, y: u64, borrow: nat): (r: (nat, nat))
    requires borrow <= 1
    ensures r.0 < T64 && r.1 <= 1 && x - y - borrow == r.0 - T64 * r.1
  {
    var bi := (y + borrow) % T64;
    ((x - bi) % T64, if bi < y || x < bi then 1 else 0)
  }

  function Prefix4(s: Quad, i: nat): nat
    requires i <= 4
  {
    (if i > 0 then s[0] else 0) + (if i > 1 then T64 * s[1] else 0)
    + (if i > 2 then T128 * s[2] else 0) + (if i > 3 then T192 * s[3] else 0)
  }

  function Weight4(i: nat): nat
    requires i <= 4
  {
    if i == 0 then 1 else if i == 1 then T64 else if i == 2 then T128 else if i == 3 then T192 else T256
  }

  /** a -= b over four words; the difference wraps at 2^256 exactly when a < b. */
  method Sub4(a: array<u64>, b: seq<u64>)
    requires a.Length == 4 && |b| == 4
    modifies a
    ensures Val4(a[..]) == if old(Val4(a[..])) >= Val4(b) then old(Val4(a[..])) - Val4(b)
                           else old(Val4(a[..])) + T256 - Val4(b)
  {
    ghost var x: Quad := a[..];
    var borrow := 0;
    var i := 0;
    while i < 4
      invariant 0 <= i <= 4 && borrow <= 1
      invariant forall k :: i <= k < 4 ==> a[k] == x[k]
      invariant Prefix4(a[..], i) == Prefix4(x, i) - Prefix4(b, i) + Weight4(i) * borrow
    {
      ghost var was: Quad := a[..];
      var w := SubWord(a[i], b[i], borrow);
      SubStep(was, x, b, i, borrow, w.0, w.1);
      a[i] := w.0;
      borrow := w.1;
      assert a[..] == was[i := w.0];
      i := i + 1;
    }
    SubEnd(x, b, a[..], borrow);
  }

  lemma SubStep(was: Quad, x: Quad, b: Quad, i: nat, borrow: nat, v: nat, borrow': nat)
    requires i < 4 && was[i] == x[i] && x[i] - b[i] - borrow == v - T64 * borrow'
    requires Prefix4(was, i) == Prefix4(x, i) - Prefix4(b, i) + Weight4(i) * borrow
    ensures Prefix4(was[i := v], i + 1) == Prefix4(x, i + 1) - Prefix4(b, i + 1) + Weight4(i + 1) * borrow'
  {
  }

  lemma SubEnd(x: Quad, b: Quad, a: Quad, borrow: nat)
    requires borrow <= 1 && AreWords(a) && AreWords(x) && AreWords(b)
    requires Prefix4(a, 4) == Prefix4(x, 4) - Prefix4(b, 4) + Weight4(4) * borrow
    ensures Val4(a) == if Val4(x) >= Val4(b) then Val4(x) - Val4(b) else Val4(x) + T256 - Val4(b)
  {
    assert Val4(a) == Prefix4(a, 4) && Val4(x) == Prefix4(x, 4) && Val4(b) == Prefix4(b, 4);
    assert Val4(a) < T256 && Val4(x) < T256 && Val4(b) < T256;
    hide Prefix4, Val4;
  }

  // ---------- bit-serial reduction ----------

  /** r = 2 r + carry over four words; the caller keeps the top bit clear. */
  method Double4(r: array<u64>, bit: nat)
    requires r.Length == 4 && bit <= 1 && Val4(r[..]) < L
    modifies r
    ensures Val4(r[..]) == 2 * old(Val4(r[..])) + bit
  {
    ghost var x: Quad := r[..];
    var carry := bit;
    var i := 0;
    while i < 4
      invariant 0 <= i <= 4 && carry <= 1
      invariant forall k :: i <= k < 4 ==> r[k] == x[k]
      invariant Prefix4(r[..], i) + Weight4(i) * carry == 2 * Prefix4(x, i) + bit
    {
      ghost var was: Quad := r[..];
      var nxt := r[i] / 0x8000_0000_0000_0000;
      var v: u64 := r[i] as nat * 2 % 0x1_0000_0000_0000_0000 + carry;
      DoubleStep(was, x, i, bit, carry, v, nxt);
      r[i] := v;
      carry := nxt;
      assert r[..] == was[i := v];
      i := i + 1;
    }
    DoubleEnd(x, r[..], bit, carry);
  }

  lemma DoubleStep(was: Quad, x: Quad, i: nat, bit: nat, carry: nat, v: nat, nxt: nat)
    requires i < 4 && was[i] == x[i] && v == x[i] * 2 % T64 + carry && nxt == x[i] / 0x8000_0000_0000_0000
    requires x[i] < T64
    requires Prefix4(was, i) + Weight4(i) * carry == 2 * Prefix4(x, i) + bit
    ensures nxt <= 1 && Prefix4(was[i := v], i + 1) + Weight4(i + 1) * nxt == 2 * Prefix4(x, i + 1) + bit
  {
    assert 2 * x[i] + carry == v + T64 * nxt;
  }

  lemma DoubleEnd(x: Quad, r: Quad, bit: nat, carry: nat)
    requires bit <= 1 && carry <= 1 && Val4(x) < L
    requires Prefix4(r, 4) + Weight4(4) * carry == 2 * Prefix4(x, 4) + bit
    ensures Val4(r) == 2 * Val4(x) + bit
  {
    assert Val4(r) == Prefix4(r, 4) && Val4(x) == Prefix4(x, 4);
    hide Prefix4, Val4;
  }

  /** One bit in: r = (2 r + bit) mod L. */
  method ReduceStep(r: array<u64>, bit: nat, ghost n: nat)
    requires r.Length == 4 && bit <= 1 && Val4(r[..]) == n % L
    modifies r
    ensures Val4(r[..]) == (2 * n + bit) % L
  {
    hide Val4;
    OrderWords();
    ghost var x := Val4(r[..]);
    Double4(r, bit);
    var ge := Ge4(r[..], SC_L);
    if ge {
      Sub4(r, SC_L);
    }
    StepResidue(n, x, bit);
  }

  lemma StepResidue(n: nat, x: nat, bit: nat)
    requires x == n % L && bit <= 1
    ensures (2 * n + bit) % L == if 2 * x + bit >= L then 2 * x + bit - L else 2 * x + bit
  {
    var q := n / L;
    DivMod(n, L);
    if 2 * x + bit >= L {
      DivModUnique(2 * n + bit, L, 2 * q + 1, 2 * x + bit - L);
    } else {
      DivModUnique(2 * n + bit, L, 2 * q, 2 * x + bit);
    }
  }

  /** in mod L as 32 little-endian bytes, for an input of any length. */
  method ReduceWide(out: array<byte>, input: seq<byte>)
    requires out.Length == 32
    modifies out
    ensures out[..] == ToLE(LE(input) % L, 32)
  {
    hide Val4, LE, Shr, Bit, ToLE;
    var r := new u64[4](_ => 0);
    ReduceStart(input, r[..]);
    var bit := 8 * |input|;
    while bit > 0
      invariant 0 <= bit <= 8 * |input|
      invariant Val4(r[..]) == Shr(LE(input), bit) % L
    {
      bit := bit - 1;
      BitIsBit(input, bit);
      HalfStep(LE(input), bit);
      BitBound(input, bit);
      ReduceStep(r, Bit(input, bit), Shr(LE(input), bit + 1));
    }
    ReduceEnd(LE(input));
    WriteWords(out, r[..]);
  }

  lemma BitBound(s: seq<byte>, i: nat)
    requires i < 8 * |s|
    ensures Bit(s, i) <= 1
  {
  }

  lemma ReduceStart(input: seq<byte>, r: Quad)
    requires forall k :: 0 <= k < 4 ==> r[k] == 0
    ensures Val4(r) == Shr(LE(input), 8 * |input|) % L
  {
    LEBound(input);
    hide LE, Pow2, Shr;
    ShrEnds(LE(input), 8 * |input|);
  }

  lemma ReduceEnd(v: nat)
    ensures Shr(v, 0) == v
  {
  }

  /** out[8 i + j] = r[i] >> 8 j */
  method WriteWords(out: array<byte>, r: seq<u64>)
    requires out.Length == 32 && |r| == 4
    modifies out
    ensures out[..] == ToLE(Val4(r), 32)
  {
    hide ToLE, Val4;
    var i := 0;
    while i < 4
      invariant 0 <= i <= 4
      invariant forall k :: 0 <= k < i ==> out[8 * k..8 * k + 8] == ToLE(r[k], 8)
    {
      ghost var was := out[..];
      FeBytes.PutWord(out, i, r[i]);
      assert out[8 * i..8 * i + 8] == ToLE(r[i], 8);
      forall k | 0 <= k < i ensures out[8 * k..8 * k + 8] == ToLE(r[k], 8) {
        assert out[8 * k..8 * k + 8] == was[8 * k..8 * k + 8];
      }
      i := i + 1;
    }
    assert out[8 * 0..8 * 0 + 8] == out[0..8] && out[8 * 3..8 * 3 + 8] == out[24..32];
    assert out[..] == out[0..8] + out[8..16] + out[16..24] + out[24..32];
    WordsMeaning(r);
    FeBytes.BytesMeaning(out[..], r[0], r[1], r[2], r[3]);
  }

  lemma WordsMeaning(r: Quad)
    ensures Val4(r) == FeBytes.Words(r[0], r[1], r[2], r[3])
  {
  }

  // ---------- the wide product ----------

  /** Changing byte k changes the value by the difference times 2^(8 k). */
  lemma {:induction false} LEUpdate(s: seq<byte>, k: nat, v: byte)
    requires k < |s|
    ensures LE(s[k := v]) == LE(s) + (v as int - s[k] as int) * Pow2(8 * k)
  {
    var t := s[1..];
    if k == 0 {
      assert s[k := v][1..] == t;
    } else {
      hide Pow2;
      LEUpdate(t, k - 1, v);
      assert s[k := v][1..] == t[k - 1 := v];
      Pow2Byte(k - 1);
      ScaleDifference(v as int - s[k] as int, Pow2(8 * (k - 1)));
    }
  }

  lemma ScaleDifference(d: int, w: int)
    ensures 0x100 * (d * w) == d * (0x100 * w)
  {
  }

  /** The value of a partly filled 64-byte product with a carry waiting at position k. */
  ghost function Pending(p: seq<byte>, k: nat, carry: nat): int {
    LE(p) + carry * Pow2(8 * k)
  }

  /** Adding x to byte k with its carry moves x * 2^(8 k) into the value. */
  lemma AddAt(p: seq<byte>, k: nat, x: nat, carry: nat, v: nat)
    requires k < |p| && v == p[k] + x + carry
    ensures Pending(p[k := v % 0x100], k + 1, v / 0x100) == Pending(p, k, carry) + x * Pow2(8 * k)
  {
    LEUpdate(p, k, v % 0x100);
    Pow2Byte(k);
    hide Pow2, LE;
    var w := Pow2(8 * k);
    assert v == v % 0x100 + 0x100 * (v / 0x100);
    CarryShift(v % 0x100, v / 0x100, p[k], x, carry, w);
  }

  lemma CarryShift(lo: int, hi: int, old_: int, x: int, carry: int, w: int)
    requires old_ + x + carry == lo + 0x100 * hi
    ensures (lo - old_) * w + hi * (0x100 * w) == carry * w + x * w
  {
    assert hi * (0x100 * w) == (0x100 * hi) * w;
    assert (lo - old_) * w + (0x100 * hi) * w == (lo - old_ + 0x100 * hi) * w;
    assert (carry + x) * w == carry * w + x * w;
  }

  /** A value below 2^(8 n) cannot leave a carry at position n. */
  lemma NoCarryLeft(p: seq<byte>, carry: nat)
    requires Pending(p, |p|, carry) < Pow2(8 * |p|)
    ensures carry == 0 && Pending(p, |p|, carry) == LE(p)
  {
    hide LE, Pow2;
    if carry > 0 { MulLe(1, carry, Pow2(8 * |p|)); }
  }

  lemma NoCarry(p: seq<byte>, k: nat)
    ensures Pending(p, k, 0) == LE(p)
  {
  }

  /** One row: prod += a_i * b * 2^(8 i), the last carry rippling upward. */
  method AddRow(prod: array<byte>, ai: byte, b: seq<byte>, i: nat)
    requires prod.Length == 64 && |b| == 32 && i < 32
    requires LE(prod[..]) + (ai as nat * LE(b)) * Pow2(8 * i) < Pow2(8 * prod.Length)
    modifies prod
    ensures LE(prod[..]) == old(LE(prod[..])) + (ai as nat * LE(b)) * Pow2(8 * i)
  {
    hide *;
    ghost var total := LE(prod[..]) + (ai as nat * LE(b)) * Pow2(8 * i);
    ghost var start := LE(prod[..]);
    NoCarry(prod[..], i);
    RowStart(ai, b, i);
    var carry: nat := 0;
    var j := 0;
    while j < 32
      invariant 0 <= j <= 32 && carry <= 0xff
      invariant Pending(prod[..], i + j, carry) == start + RowPart(ai, b, i, j)
    {
      ghost var was := prod[..];
      RowStep(was, ai, b, i, j, carry, start);
      var v: u32 := RowDigit(prod[i + j], ai, b[j], carry);
      var lo: byte := v % 0x100;
      prod[i + j] := lo;
      carry := v / 0x100;
      assert prod[..] == was[i + j := lo];
      j := j + 1;
    }
    RowEnd(ai, b, i);
    Ripple(prod, i + 32, carry);
  }

  /** while (carry && k < 64): the last carry of a row moves upward; it cannot leave the top. */
  method Ripple(prod: array<byte>, at: nat, c: nat)
    requires prod.Length == 64 && at <= 64 && c <= 0xff
    requires Pending(prod[..], at, c) < Pow2(8 * prod.Length)
    modifies prod
    ensures LE(prod[..]) == old(Pending(prod[..], at, c))
  {
    hide *;
    ghost var total := Pending(prod[..], at, c);
    var carry: nat, k: nat := c, at;
    while carry != 0 && k < 64
      invariant at <= k <= 64 && carry <= 0xff
      invariant Pending(prod[..], k, carry) == total
    {
      ghost var was := prod[..];
      var v: u32 := prod[k] as nat + carry;
      AddAt(was, k, 0, carry, v);
      var lo: byte := v % 0x100;
      prod[k] := lo;
      carry := v / 0x100;
      assert prod[..] == was[k := lo];
      k := k + 1;
    }
    if k == 64 { NoCarryLeft(prod[..], carry); }
    NoCarry(prod[..], k);
  }

  /** a_i * (the j low bytes of b) * 2^(8 i) */
  ghost function RowPart(ai: byte, b: seq<byte>, i: nat, j: nat): int
    requires j <= |b|
  {
    (ai as nat * LE(b[..j])) * Pow2(8 * i)
  }

  lemma RowFits(p: byte, x: byte, y: byte, carry: nat)
    requires carry <= 0xff
    ensures p as nat + x as nat * y as nat + carry < 0x1_0000
  {
    MulLe(x, 0xff, y);
  }

  lemma RowStart(ai: byte, b: seq<byte>, i: nat)
    ensures RowPart(ai, b, i, 0) == 0
  {
    assert b[..0] == [];
  }

  lemma RowEnd(ai: byte, b: seq<byte>, i: nat)
    requires |b| == 32
    ensures RowPart(ai, b, i, 32) == (ai as nat * LE(b)) * Pow2(8 * i)
  {
    assert b[..32] == b;
  }

  lemma RowNext(ai: byte, b: seq<byte>, i: nat, j: nat)
    requires j < |b|
    ensures RowPart(ai, b, i, j + 1) == RowPart(ai, b, i, j) + (ai as nat * b[j] as nat) * Pow2(8 * (i + j))
  {
    var x, y, p, q, l := ai as nat, b[j] as nat, Pow2(8 * i), Pow2(8 * j), LE(b[..j]);
    assert LE(b[..j + 1]) == l + q * y by { LEPrefixNext(b, j); }
    assert Pow2(8 * (i + j)) == p * q by { assert 8 * (i + j) == 8 * i + 8 * j; Pow2Add(8 * i, 8 * j); }
    hide Pow2, LE;
    RowArithmetic(x, y, p, q, l);
  }

  lemma RowArithmetic(x: int, y: int, p: int, q: int, l: int)
    ensures (x * (l + q * y)) * p == (x * l) * p + (x * y) * (p * q)
  {
    assert x * (l + q * y) == x * l + x * (q * y);
    assert (x * l + x * (q * y)) * p == (x * l) * p + (x * (q * y)) * p;
    assert (x * (q * y)) * p == (x * y) * (p * q);
  }

  lemma LEPrefixNext(b: seq<byte>, j: nat)
    requires j < |b|
    ensures LE(b[..j + 1]) == LE(b[..j]) + Pow2(8 * j) * b[j]
  {
    assert b[..j + 1] == b[..j] + [b[j]];
    LEAppend(b[..j], [b[j]]);
    assert LE([b[j]]) == b[j];
  }

  lemma RowStep(p: seq<byte>, ai: byte, b: seq<byte>, i: nat, j: nat, carry: nat, start: int)
    requires j < |b| && i + j < |p| && carry <= 0xff
    requires Pending(p, i + j, carry) == start + RowPart(ai, b, i, j)
    ensures var v := RowDigit(p[i + j], ai, b[j], carry);
      && v < 0x1_0000
      && Pending(p[i + j := v % 0x100], i + j + 1, v / 0x100) == start + RowPart(ai, b, i, j + 1)
  {
    RowFits(p[i + j], ai, b[j], carry);
    RowDigitIs(p[i + j], ai, b[j], carry);
    hide *;
    AddAt(p, i + j, ai as nat * b[j] as nat, carry, RowDigit(p[i + j], ai, b[j], carry));
    RowNext(ai, b, i, j);
  }

  /** prod[i + j] + a[i] * b[j] + carry */
  function RowDigit(p: byte, x: byte, y: byte, carry: nat): nat { p + x as nat * y as nat + carry }

  lemma RowDigitIs(p: byte, x: byte, y: byte, carry: nat)
    ensures RowDigit(p, x, y, carry) == p as nat + x as nat * y as nat + carry
  {
  }

  /** The schoolbook product of two 32-byte numbers; it never overflows 64 bytes. */
  method Product(a: seq<byte>, b: seq<byte>) returns (prod: array<byte>)
    requires |a| == 32 && |b| == 32
    ensures fresh(prod) && prod.Length == 64 && LE(prod[..]) == LE(a) * LE(b)
  {
    prod := new byte[64](_ => 0);
    ZeroBytes(prod[..]);
    hide *;
    ProductStart(a, b);
    var i := 0;
    while i < 32
      invariant 0 <= i <= 32
      invariant LE(prod[..]) == LE(a[..i]) * LE(b)
    {
      ProductNext(a, b, i);
      AddRow(prod, a[i], b, i);
      i := i + 1;
    }
    assert a[..32] == a;
  }

  lemma {:induction false} ZeroBytes(s: seq<byte>)
    requires forall k :: 0 <= k < |s| ==> s[k] == 0
    ensures LE(s) == 0
  {
    if s != [] { ZeroBytes(s[1..]); }
  }

  lemma ProductStart(a: seq<byte>, b: seq<byte>)
    ensures LE(a[..0]) * LE(b) == 0
  {
    assert a[..0] == [];
  }

  lemma ProductNext(a: seq<byte>, b: seq<byte>, i: nat)
    requires i < |a|
    ensures LE(a[..i + 1]) * LE(b) == LE(a[..i]) * LE(b) + (a[i] as nat * LE(b)) * Pow2(8 * i)
    ensures LE(a[..i + 1]) * LE(b) < Pow2(8 * (|a| + |b|))
  {
    assert LE(a[..i + 1]) < Pow2(8 * |a|) by {
      LEBound(a[..i + 1]);
      hide Pow2, LE;
      Pow2Le(8 * (i + 1), 8 * |a|);
    }
    LEPrefixNext(a, i);
    LEBound(b);
    hide Pow2, LE;
    Pow2Add(8 * |a|, 8 * |b|);
    ProductNextArithmetic(LE(a[..i]), Pow2(8 * i), a[i], LE(b));
    BelowProduct(LE(a[..i + 1]), LE(b), Pow2(8 * |a|), Pow2(8 * |b|));
  }

  lemma ProductNextArithmetic(l: int, q: int, x: int, y: int)
    ensures (l + q * x) * y == l * y + (x * y) * q
  {
    assert (l + q * x) * y == l * y + (q * x) * y;
  }

  lemma BelowProduct(x: nat, y: nat, m: nat, n: nat)
    requires x < m && y < n
    ensures x * y < m * n && x * y + m <= m * n
  {
    MulLe(x, m, y);
    MulLe(y, n - 1, m);
    assert m * y <= m * (n - 1) == m * n - m;
  }

  /** prod += c over the low 32 bytes, the carry rippling upward. */
  method AddLow(prod: array<byte>, c: seq<byte>)
    requires prod.Length == 64 && |c| == 32
    requires LE(prod[..]) + LE(c) < Pow2(8 * prod.Length)
    modifies prod
    ensures LE(prod[..]) == old(LE(prod[..])) + LE(c)
  {
    hide *;
    ghost var start := LE(prod[..]);
    NoCarry(prod[..], 0);
    assert LE(c[..0]) == 0 by { assert c[..0] == []; EmptyValue(); }
    var carry: nat := 0;
    var i := 0;
    while i < 32
      invariant 0 <= i <= 32 && carry <= 0xff
      invariant Pending(prod[..], i, carry) == start + LE(c[..i])
    {
      ghost var was := prod[..];
      var v: u32 := prod[i] as nat + c[i] as nat + carry;
      AddAt(was, i, c[i], carry, v);
      LEPrefixNext(c, i);
      var lo: byte := v % 0x100;
      prod[i] := lo;
      carry := v / 0x100;
      assert prod[..] == was[i := lo];
      i := i + 1;
    }
    assert c[..32] == c;
    while i < 64 && carry != 0
      invariant 32 <= i <= 64 && carry <= 0xff
      invariant Pending(prod[..], i, carry) == start + LE(c)
    {
      ghost var was := prod[..];
      var v: u32 := prod[i] as nat + carry;
      AddAt(was, i, 0, carry, v);
      var lo: byte := v % 0x100;
      prod[i] := lo;
      carry := v / 0x100;
      assert prod[..] == was[i := lo];
      i := i + 1;
    }
    if i == 64 { NoCarryLeft(prod[..], carry); }
    NoCarry(prod[..], i);
  }

  lemma EmptyValue()
    ensures LE([]) == 0
  {
  }

  /** out = a * b + c mod L for all 32-byte a, b, c. */
  method MulAddMod(out: array<byte>, a: seq<byte>, b: seq<byte>, c: seq<byte>)
    requires out.Length == 32 && |a| == 32 && |b| == 32 && |c| == 32
    modifies out
    ensures out[..] == ToLE((LE(a) * LE(b) + LE(c)) % L, 32)
  {
    hide *;
    var prod := Product(a, b);
    SumFits(a, b, c);
    AddLow(prod, c);
    ReduceWide(out, prod[..]);
  }

  lemma SumFits(a: seq<byte>, b: seq<byte>, c: seq<byte>)
    requires |c| <= |a|
    ensures LE(a) * LE(b) + LE(c) < Pow2(8 * (|a| + |b|))
  {
    LEBound(a);
    LEBound(b);
    LEBound(c);
    hide Pow2, LE;
    Pow2Le(8 * |c|, 8 * |a|);
    Pow2Add(8 * |a|, 8 * |b|);
    BelowProduct(LE(a), LE(b), Pow2(8 * |a|), Pow2(8 * |b|));
  }

  /** The reduced scalar is the unique number below L congruent to a b + c, and it fits. */
  lemma ScalarValue(v: nat)
    ensures LE(ToLE(v % L, 32)) == v % L < L && L < Pow2(255)
  {
    Pow2Values();
    LEToLE(v % L, 32);
  }

  // ---------- s < L ----------

  /** Byte strings compare by their highest differing byte. */
  lemma CompareBytes(s: seq<byte>, t: seq<byte>, i: nat)
    requires |s| == |t| && i < |s| && s[i + 1..] == t[i + 1..] && s[i] < t[i]
    ensures LE(s) < LE(t)
  {
    LEPrefixNext(s, i);
    LEPrefixNext(t, i);
    LEBound(s[..i]);
    assert s == s[..i + 1] + s[i + 1..] && t == t[..i + 1] + t[i + 1..];
    LEAppend(s[..i + 1], s[i + 1..]);
    LEAppend(t[..i + 1], t[i + 1..]);
    hide LE, Pow2;
    HigherByte(LE(s[..i]), LE(t[..i]), Pow2(8 * i), s[i], t[i]);
  }

  lemma HigherByte(x: nat, y: nat, w: nat, a: nat, b: nat)
    requires x < w && a < b
    ensures x + w * a < y + w * b
  {
    MulLe(a + 1, b, w);
  }

  method BelowOrder(s: seq<byte>) returns (lt: bool)
    requires |s| == 32
    ensures lt <==> LE(s) < L
  {
    OrderBytes();
    hide *;
    ghost var l := ToLE(L, 32);
    var i := 32;
    while i > 0
      invariant 0 <= i <= 32
      invariant s[i..] == l[i..]
    {
      i := i - 1;
      OrderByte(i);
      var lb: byte := Shr(SC_L[i / 8], i % 8 * 8) % 0x100;
      if s[i] < lb { CompareBytes(s, l, i); return true; }
      if s[i] > lb { CompareBytes(l, s, i); return false; }
      assert s[i..] == [s[i]] + s[i + 1..] && l[i..] == [l[i]] + l[i + 1..];
    }
    assert s[0..] == s && l[0..] == l;
    return false;
  }

  lemma OrderBytes()
    ensures LE(ToLE(L, 32)) == L && |ToLE(L, 32)| == 32
  {
    Pow2Values();
    hide Pow2, LE, ToLE;
    LEToLE(L, 32);
  }

  /** The byte the source picks out of the word table is byte i of L. */
  lemma OrderByte(i: nat)
    requires i < 32
    ensures |SC_L| == 4 && Shr(SC_L[i / 8], i % 8 * 8) % 0x100 == ToLE(L, 32)[i]
  {
    OrderWords();
    hide ToLE, Shr;
    WordByte(SC_L, i);
  }

  lemma WordByte(x: seq<u64>, i: nat)
    requires |x| == 4 && i < 32
    ensures ToLE(Val4(x), 32)[i] == Shr(x[i / 8], i % 8 * 8) % 0x100
  {
    WordsMeaning(x);
    var w0, w1, w2, w3 := ToLE(x[0], 8), ToLE(x[1], 8), ToLE(x[2], 8), ToLE(x[3], 8);
    ToLEIndex(x[i / 8], 8, i % 8);
    hide ToLE, Val4, Shr, FeBytes.Words;
    FeBytes.BytesMeaning(w0 + w1 + w2 + w3, x[0], x[1], x[2], x[3]);
    FourBlocks(w0, w1, w2, w3, i);
  }

  lemma FourBlocks(a: seq<byte>, b: seq<byte>, c: seq<byte>, d: seq<byte>, i: nat)
    requires |a| == 8 && |b| == 8 && |c| == 8 && |d| == 8 && i < 32
    ensures (a + b + c + d)[i]
      == (if i / 8 == 0 then a else if i / 8 == 1 then b else if i / 8 == 2 then c else d)[i % 8]
  {
  }
}
