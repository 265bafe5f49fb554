/** src/fe25519.c: field arithmetic on five unsaturated 51-bit limbs.  Each method works on
    five-element arrays in place, as the source does, and is proved to compute the field
    operation of module Field on the values the limbs stand for.  Limb magnitudes are
    tracked by MaxLimb; the two closed classes are Reduced (what a product leaves) and
    AtMost2P (what a negation leaves). */
module Fe25519 {
  import opened Arithmetic
  import opened Bits
  import opened Bytes
  import opened Field

  const LIMB: nat := 0x8_0000_0000_0000
  const TWO52: nat := 0x10_0000_0000_0000
  const TWO54: nat := 0x40_0000_0000_0000
  const P2_0: nat := TWO52 - 38
  const P2_I: nat := TWO52 - 2

  // weights of the limbs
  const W1: nat := 0x8_0000_0000_0000
  const W2: nat := 0x40_0000_0000_0000_0000_0000_0000
  const W3: nat := 0x200_0000_0000_0000_0000_0000_0000_0000_0000_0000
  const W4: nat := 0x1000_0000_0000_0000_0000_0000_0000_0000_0000_0000_0000_0000_0000
  const W5: nat := 0x8000_0000_0000_0000_0000_0000_0000_0000_0000_0000_0000_0000_0000_0000_0000_0000

  type Limbs = s: seq<nat> | |s| == 5 witness [0, 0, 0, 0, 0]

  function Weigh(l0: int, l1: int, l2: int, l3: int, l4: int): int {
    l0 + W1 * l1 + W2 * l2 + W3 * l3 + W4 * l4
  }

  /** The integer five limbs stand for; limbs may exceed 2^51. */
  function Val(s: Limbs): nat { Weigh(s[0], s[1], s[2], s[3], s[4]) }

  /** The field element five limbs stand for. */
  function Fe(s: Limbs): Fp { Residue(Val(s)) }

  lemma FeIsResidue(s: Limbs)
    ensures Fe(s) == Val(s) % P
  {
    ResidueIs(Val(s));
    hide Val, Residue;
  }

  function Max(x: nat, y: nat): nat { if x < y then y else x }

  function MaxLimb(s: Limbs): nat { Max(s[0], Max(s[1], Max(s[2], Max(s[3], s[4])))) }

  /** The shape of every product: limbs below 2^51, the lowest at most 2^51 + 18. */
  predicate Reduced(s: Limbs) {
    s[0] <= LIMB + 18 && s[1] < LIMB && s[2] < LIMB && s[3] < LIMB && s[4] < LIMB
  }

  /** Limbwise at most 2p, what `fe25519_sub` needs of its subtrahend. */
  predicate AtMost2P(s: Limbs) {
    s[0] <= P2_0 && s[1] <= P2_I && s[2] <= P2_I && s[3] <= P2_I && s[4] <= P2_I
  }

  lemma ReducedBounds(s: Limbs)
    requires Reduced(s)
    ensures MaxLimb(s) <= 0x8_0000_0000_0012 && AtMost2P(s)
  {
  }

  // ---------- addition and subtraction ----------

  lemma LimbsBelowMax(s: Limbs)
    ensures forall k :: 0 <= k < 5 ==> s[k] <= MaxLimb(s)
  {
  }

  method Add(out: array<u64>, a: array<u64>, b: array<u64>)
    requires out.Length == 5 && a.Length == 5 && b.Length == 5
    requires MaxLimb(a[..]) + MaxLimb(b[..]) < 0x1_0000_0000_0000_0000
    modifies out
    ensures Fe(out[..]) == FAdd(old(Fe(a[..])), old(Fe(b[..])))
    ensures MaxLimb(out[..]) <= old(MaxLimb(a[..])) + old(MaxLimb(b[..]))
  {
    hide *;
    ghost var x: Limbs, y: Limbs := a[..], b[..];
    LimbsBelowMax(x);
    LimbsBelowMax(y);
    var i := 0;
    while i < 5
      invariant 0 <= i <= 5
      invariant forall k :: 0 <= k < i ==> out[k] == x[k] + y[k]
      invariant forall k :: i <= k < 5 ==> a[k] == x[k] && b[k] == y[k]
    {
      out[i] := a[i] + b[i];
      i := i + 1;
    }
    AddMeaning(out[..], x, y);
  }

  lemma AddMeaning(o: Limbs, x: Limbs, y: Limbs)
    requires forall k :: 0 <= k < 5 ==> o[k] == x[k] + y[k]
    ensures Fe(o) == FAdd(Fe(x), Fe(y))
    ensures MaxLimb(o) <= MaxLimb(x) + MaxLimb(y)
  {
    hide Val, MaxLimb, FAdd, Residue;
    AddValue(o, x, y);
    AddBounds(o, x, y);
    OpsOnResidues(Val(x), Val(y));
  }

  lemma AddValue(o: Limbs, x: Limbs, y: Limbs)
    requires forall k :: 0 <= k < 5 ==> o[k] == x[k] + y[k]
    ensures Val(o) == Val(x) + Val(y)
  {
  }

  lemma AddBounds(o: Limbs, x: Limbs, y: Limbs)
    requires forall k :: 0 <= k < 5 ==> o[k] == x[k] + y[k]
    ensures MaxLimb(o) <= MaxLimb(x) + MaxLimb(y)
  {
  }

  /** The field operations on residues are the integer operations reduced. */
  lemma OpsOnResidues(v: int, w: int)
    ensures Residue(v + w) == FAdd(Residue(v), Residue(w)) && Residue(v - w) == FSub(Residue(v), Residue(w))
    ensures Residue(v * w) == FMul(Residue(v), Residue(w))
  {
    EqResidue(v);
    EqResidue(w);
    hide Residue, Eq;
    OpsRespect(v, Residue(v), w, Residue(w));
  }

  /** out = a + 2p - b limbwise; the caller guarantees b <= 2p in each limb. */
  method Sub(out: array<u64>, a: array<u64>, b: array<u64>)
    requires out.Length == 5 && a.Length == 5 && b.Length == 5
    requires MaxLimb(a[..]) < 0x1_0000_0000_0000_0000 - TWO52 && AtMost2P(b[..])
    modifies out
    ensures Fe(out[..]) == FSub(old(Fe(a[..])), old(Fe(b[..])))
    ensures MaxLimb(out[..]) <= old(MaxLimb(a[..])) + P2_I
    ensures old(MaxLimb(a[..])) == 0 ==> AtMost2P(out[..])
  {
    hide *;
    ghost var x: Limbs, y: Limbs := a[..], b[..];
    var p2: Limbs := [P2_0, P2_I, P2_I, P2_I, P2_I];
    BelowP2(y, p2);
    LimbsBelowMax(x);
    var i := 0;
    while i < 5
      invariant 0 <= i <= 5
      invariant forall k :: 0 <= k < i ==> out[k] == x[k] + p2[k] - y[k]
      invariant forall k :: i <= k < 5 ==> a[k] == x[k] && b[k] == y[k]
    {
      var s: u64 := a[i] + p2[i];
      out[i] := s - b[i];
      i := i + 1;
    }
    assert out[0] == x[0] + p2[0] - y[0];
    SubMeaning(out[..], x, y);
  }

  lemma BelowP2(y: Limbs, p2: Limbs)
    requires AtMost2P(y) && p2 == [P2_0, P2_I, P2_I, P2_I, P2_I]
    ensures forall k :: 0 <= k < 5 ==> y[k] <= p2[k] <= TWO52
  {
  }

  lemma SubMeaning(o: Limbs, x: Limbs, y: Limbs)
    requires o[0] == x[0] + P2_0 - y[0]
    requires forall k :: 1 <= k < 5 ==> o[k] == x[k] + P2_I - y[k]
    ensures Fe(o) == FSub(Fe(x), Fe(y))
    ensures MaxLimb(o) <= MaxLimb(x) + P2_I
    ensures MaxLimb(x) == 0 ==> AtMost2P(o)
  {
    hide Val, MaxLimb, AtMost2P, Eq, FSub, Residue;
    SubValue(o, x, y);
    SubBounds(o, x, y);
    EqIntro(Val(o), Val(x) - Val(y), 2);
    EqSame(Val(o), Val(x) - Val(y));
    OpsOnResidues(Val(x), Val(y));
  }

  lemma SubValue(o: Limbs, x: Limbs, y: Limbs)
    requires o[0] == x[0] + P2_0 - y[0]
    requires forall k :: 1 <= k < 5 ==> o[k] == x[k] + P2_I - y[k]
    ensures Val(o) == Val(x) - Val(y) + 2 * P
  {
    PValue();
  }

  lemma SubBounds(o: Limbs, x: Limbs, y: Limbs)
    requires o[0] == x[0] + P2_0 - y[0]
    requires forall k :: 1 <= k < 5 ==> o[k] == x[k] + P2_I - y[k]
    ensures MaxLimb(o) <= MaxLimb(x) + P2_I
    ensures MaxLimb(x) == 0 ==> AtMost2P(o)
  {
  }

  // ---------- multiplication ----------

  function W(k: nat): nat { Pow2(51 * k) }

  type Columns = s: seq<nat> | |s| == 9 witness [0, 0, 0, 0, 0, 0, 0, 0, 0]

  /** The value of the nine product columns. */
  function Wide(t: seq<nat>, n: nat): nat
    requires n <= |t|
  {
    if n == 0 then 0 else Wide(t, n - 1) + t[n - 1] * W(n - 1)
  }

  /** Adding x to column k adds x * 2^(51 k) to the value. */
  lemma {:induction false} WideUpdate(t: seq<nat>, k: nat, x: nat, n: nat)
    requires k < |t| && n <= |t|
    ensures Wide(t[k := t[k] + x], n) == Wide(t, n) + (if k < n then x * W(k) else 0)
  {
    if n > 0 {
      hide W;
      WideUpdate(t, k, x, n - 1);
      if k == n - 1 {
        MulAdd(t[k], x, W(k));
      }
    }
  }

  /** One step of the schoolbook row: (a_i W_i)(b_j W_j) lands in column i + j. */
  lemma ColumnStep(ai: nat, bj: nat, i: nat, j: nat, q: nat)
    ensures (ai * W(i)) * (q + bj * W(j)) == (ai * W(i)) * q + (ai * bj) * W(i + j)
  {
    assert W(i + j) == W(i) * W(j) by {
      assert 51 * (i + j) == 51 * i + 51 * j;
      Pow2Add(51 * i, 51 * j);
    }
    hide W;
    var u, v := W(i), W(j);
    assert (ai * u) * (q + bj * v) == (ai * u) * q + (ai * u) * (bj * v);
    assert (ai * u) * (bj * v) == (ai * bj) * (u * v);
  }

  /** Rows 0..i-1 and the first j products of row i have been summed into t. */
  ghost predicate Summed(t: Columns, a: Limbs, b: Limbs, i: nat, j: nat)
    requires i <= 5 && j <= 5
  {
    && Wide(t, 9) == Wide(a, i) * Wide(b, 5) + (if i < 5 then (a[i] * W(i)) * Wide(b, j) else 0)
    && forall k :: 0 <= k < 9 ==> t[k] <= (if i < 5 && k < i + j then i + 1 else i) * COLUMN
  }

  const COLUMN: nat := 0x1000_0000_0000_0000_0000_0000_0000  // 2^108

  lemma SummedNone(t: Columns, a: Limbs, b: Limbs)
    requires forall k :: 0 <= k < 9 ==> t[k] == 0
    ensures Summed(t, a, b, 0, 0)
  {
    ZeroWide(t, 9);
    assert Wide(a, 0) == 0 && Wide(b, 0) == 0;
    hide Wide, W;
  }

  lemma ProductFits(t: Columns, a: Limbs, b: Limbs, i: nat, j: nat)
    requires i < 5 && j < 5 && Summed(t, a, b, i, j)
    requires MaxLimb(a) < TWO54 && MaxLimb(b) < TWO54
    ensures a[i] * b[j] <= COLUMN && t[i + j] <= i * COLUMN
  {
    LimbsBelowMax(a);
    LimbsBelowMax(b);
    hide Wide, W, MaxLimb;
    MulLe(a[i], TWO54, b[j]);
  }

  /** One product accumulated moves the row from j to j + 1. */
  lemma SummedStep(t: Columns, t': Columns, a: Limbs, b: Limbs, i: nat, j: nat, x: nat)
    requires i < 5 && j < 5 && x <= COLUMN && t[i + j] <= i * COLUMN
    requires t' == t[i + j := t[i + j] + x]
    requires x == a[i] * b[j]
    requires Summed(t, a, b, i, j)
    ensures Summed(t', a, b, i, j + 1)
  {
    hide Wide, W;
    WideNext(b, j);
    WideUpdate(t, i + j, x, 9);
    ColumnStep(a[i], b[j], i, j, Wide(b, j));
    SumsStep(t, t', i, j, x);
  }

  lemma SumsStep(t: Columns, t': Columns, i: nat, j: nat, x: nat)
    requires i < 5 && j < 5 && x <= COLUMN && t[i + j] <= i * COLUMN && t' == t[i + j := t[i + j] + x]
    requires forall k :: 0 <= k < 9 ==> t[k] <= (if k < i + j then i + 1 else i) * COLUMN
    ensures forall k :: 0 <= k < 9 ==> t'[k] <= (if k < i + j + 1 then i + 1 else i) * COLUMN
  {
  }

  lemma SummedRow(t: Columns, a: Limbs, b: Limbs, i: nat)
    requires i < 5 && Summed(t, a, b, i, 5)
    ensures Summed(t, a, b, i + 1, 0)
  {
    WideNext(a, i);
    assert Wide(b, 0) == 0;
    hide Wide, W;
    MulAdd(Wide(a, i), a[i] * W(i), Wide(b, 5));
  }

  /** The 25 limb products, summed into nine columns. */
  method Product(a: array<u64>, b: array<u64>) returns (t: array<u128>)
    requires a.Length == 5 && b.Length == 5
    requires MaxLimb(a[..]) < TWO54 && MaxLimb(b[..]) < TWO54
    ensures fresh(t) && t.Length == 9 && Summed(t[..], a[..], b[..], 5, 0)
  {
    t := new u128[9](_ => 0);
    SummedNone(t[..], a[..], b[..]);
    hide *;
    var i := 0;
    while i < 5
      invariant 0 <= i <= 5
      invariant Summed(t[..], a[..], b[..], i, 0)
    {
      ProductRow(t, a, b, i);
      i := i + 1;
    }
  }

  method ProductRow(t: array<u128>, a: array<u64>, b: array<u64>, i: nat)
    requires a.Length == 5 && b.Length == 5 && t.Length == 9 && i < 5
    requires MaxLimb(a[..]) < TWO54 && MaxLimb(b[..]) < TWO54
    requires Summed(t[..], a[..], b[..], i, 0)
    modifies t
    ensures Summed(t[..], a[..], b[..], i + 1, 0)
  {
    hide Summed, MaxLimb;
    var j := 0;
    while j < 5
      invariant 0 <= j <= 5
      invariant Summed(t[..], a[..], b[..], i, j)
    {
      ghost var was: Columns := t[..];
      ProductFits(was, a[..], b[..], i, j);
      var v := a[i] as u128 * b[j] as u128;
      t[i + j] := t[i + j] + v;
      assert t[..] == was[i + j := was[i + j] + v];
      SummedStep(was, t[..], a[..], b[..], i, j, v);
      j := j + 1;
    }
    SummedRow(t[..], a[..], b[..], i);
  }

  lemma WideEmpty(s: seq<nat>)
    ensures Wide(s, 0) == 0
  {
  }

  lemma WideNext(s: seq<nat>, n: nat)
    requires n < |s|
    ensures Wide(s, n + 1) == Wide(s, n) + s[n] * W(n)
  {
  }

  lemma {:induction false} ZeroWide(s: seq<nat>, n: nat)
    requires n <= |s| && forall k :: 0 <= k < |s| ==> s[k] == 0
    ensures Wide(s, n) == 0
  {
    if n > 0 { ZeroWide(s, n - 1); }
  }

  // ---------- folding and carrying ----------


  lemma WideExplicit(t: Columns)
    ensures Wide(t, 9) == Weigh(t[0], t[1], t[2], t[3], t[4]) + W5 * Weigh(t[5], t[6], t[7], t[8], 0)
  {
    WideLow(t);
    var w5 := Wide(t, 5);
    assert W(5) == W5 && W(6) == W5 * W1 && W(7) == W5 * W2 && W(8) == W5 * W3 by { Weights(); }
    hide W;
    assert Wide(t, 9) == w5 + t[5] * W(5) + t[6] * W(6) + t[7] * W(7) + t[8] * W(8) by {
      WideNext(t, 5); WideNext(t, 6); WideNext(t, 7); WideNext(t, 8);
      hide Wide;
    }
  }

  lemma WideLow(t: seq<nat>)
    requires |t| >= 5
    ensures Wide(t, 5) == Weigh(t[0], t[1], t[2], t[3], t[4])
  {
    assert W(0) == 1 && W(1) == W1 && W(2) == W2 && W(3) == W3 && W(4) == W4 by { Weights(); }
    hide W;
    assert Wide(t, 5) == t[0] * W(0) + t[1] * W(1) + t[2] * W(2) + t[3] * W(3) + t[4] * W(4) by {
      WideEmpty(t); WideNext(t, 0); WideNext(t, 1); WideNext(t, 2); WideNext(t, 3); WideNext(t, 4);
      hide Wide;
    }
  }

  lemma Weights()
    ensures W(0) == 1 && W(1) == W1 && W(2) == W2 && W(3) == W3 && W(4) == W4
    ensures W(5) == W5 && W(6) == W5 * W1 && W(7) == W5 * W2 && W(8) == W5 * W3
  {
    Pow2Values();
    assert Pow2(0) == 1;
    Pow2Add(51, 51);
    Pow2Add(102, 51);
    Pow2Add(153, 51);
    Pow2Add(204, 51);
    Pow2Add(255, 51);
    Pow2Add(306, 51);
    Pow2Add(357, 51);
    hide Pow2;
  }

  predicate ColumnsFit(t: Columns) { forall k :: 0 <= k < 9 ==> t[k] <= 5 * COLUMN }

  function Folded(t: Columns): Columns {
    [t[0] + 19 * t[5], t[1] + 19 * t[6], t[2] + 19 * t[7], t[3] + 19 * t[8], t[4], t[5], t[6], t[7], t[8]]
  }

  /** Columns five places up count 19 times, as 2^255 is 19 modulo p. */
  method FoldHigh(t: array<u128>)
    requires t.Length == 9 && ColumnsFit(t[..])
    modifies t
    ensures t[..] == Folded(old(t[..]))
  {
    ghost var x: Columns := t[..];
    assert forall k :: 0 <= k < 9 ==> x[k] <= 0x1_0000_0000_0000_0000_0000_0000_0000;
    hide *;
    var i := 0;
    while i < 4
      invariant 0 <= i <= 4
      invariant forall k :: 0 <= k < i ==> t[k] == x[k] + 19 * x[k + 5]
      invariant forall k :: i <= k < 9 ==> t[k] == x[k]
    {
      t[i] := t[i] + t[i + 5] * 19;
      i := i + 1;
    }
    FoldedIs(x, t[..]);
  }

  lemma FoldedIs(x: Columns, u: Columns)
    requires forall k :: 0 <= k < 4 ==> u[k] == x[k] + 19 * x[k + 5]
    requires forall k :: 4 <= k < 9 ==> u[k] == x[k]
    ensures u == Folded(x)
  {
  }

  lemma FoldMeaning(t: Columns)
    ensures var u := Folded(t); Eq(Weigh(u[0], u[1], u[2], u[3], u[4]), Wide(t, 9))
  {
    WideExplicit(t);
    hide Wide;
    var u := Folded(t);
    MultipleOfP(-Weigh(t[5], t[6], t[7], t[8], 0));
    EqIntro(Weigh(u[0], u[1], u[2], u[3], u[4]), Wide(t, 9), -Weigh(t[5], t[6], t[7], t[8], 0));
  }

  /** The base-2^51 digits of columns v_i, carried upward, and the final carry. */
  function Carry(v: seq<nat>, i: nat): nat
    requires i <= |v|
  {
    if i == 0 then 0 else (v[i - 1] + Carry(v, i - 1)) / LIMB
  }

  function Digit(v: seq<nat>, i: nat): nat
    requires i < |v|
  {
    (v[i] + Carry(v, i)) % LIMB
  }

  function Digits(v: seq<nat>): Limbs
    requires |v| >= 5
  {
    [Digit(v, 0), Digit(v, 1), Digit(v, 2), Digit(v, 3), Digit(v, 4)]
  }

  predicate Below51(s: Limbs) { forall k :: 0 <= k < 5 ==> s[k] < LIMB }

  lemma DigitsBelow(v: seq<nat>)
    requires |v| >= 5
    ensures Below51(Digits(v))
  {
  }

  lemma CarryMeaning(v: seq<nat>)
    requires |v| >= 5
    ensures Weigh(v[0], v[1], v[2], v[3], v[4])
      == Weigh(Digit(v, 0), Digit(v, 1), Digit(v, 2), Digit(v, 3), Digit(v, 4)) + W5 * Carry(v, 5)
  {
    var c0, c1, c2, c3, c4, c5 := Carry(v, 0), Carry(v, 1), Carry(v, 2), Carry(v, 3), Carry(v, 4), Carry(v, 5);
    assert v[0] + c0 == Digit(v, 0) + LIMB * c1;
    assert v[1] + c1 == Digit(v, 1) + LIMB * c2;
    assert v[2] + c2 == Digit(v, 2) + LIMB * c3;
    assert v[3] + c3 == Digit(v, 3) + LIMB * c4;
    assert v[4] + c4 == Digit(v, 4) + LIMB * c5;
    hide Digit, Carry;
  }

  lemma CarryBound(v: seq<nat>, i: nat, m: nat)
    requires i <= |v| && forall k :: 0 <= k < i ==> v[k] <= m * LIMB
    ensures Carry(v, i) <= 2 * m + 1
  {
    if i > 0 { CarryBound(v, i - 1, m); }
  }

  /** What limb k holds above its 51 bits moves into limb k + 1. */
  method CarryLimb(out: array<u64>, k: nat)
    requires out.Length == 5 && k < 4 && out[k + 1] + out[k] / LIMB < 0x1_0000_0000_0000_0000
    modifies out
    ensures out[..] == old(out[..])[k := old(out[k]) % LIMB][k + 1 := old(out[k + 1]) + old(out[k]) / LIMB]
  {
    var c: u64 := out[k] / LIMB;
    out[k] := out[k] % LIMB;
    out[k + 1] := out[k + 1] + c;
  }

  /** What the top limb holds above bit 255 comes back at the bottom, times 19. */
  method CarryTop(out: array<u64>)
    requires out.Length == 5 && out[0] + 19 * (out[4] / LIMB) < 0x1_0000_0000_0000_0000
    modifies out
    ensures out[..] == old(out[..])[4 := old(out[4]) % LIMB][0 := old(out[0]) + 19 * (old(out[4]) / LIMB)]
  {
    var c: u64 := out[4] / LIMB;
    out[4] := out[4] % LIMB;
    out[0] := out[0] + c * 19;
  }

  /** The limbs after one carry pass whose last carry re-enters limb 0 times 19. */
  function CarryPass(v: Limbs): Limbs {
    [Digit(v, 0) + 19 * Carry(v, 5), Digit(v, 1), Digit(v, 2), Digit(v, 3), Digit(v, 4)]
  }

  /** No limb overflows during a carry pass. */
  predicate PassReady(v: Limbs) {
    v[0] < 0x1_0000_0000_0000_0000 && v[1] < TWO54 && v[2] < TWO54 && v[3] < TWO54 && v[4] < TWO54
  }

  /** One carry pass in place. */
  method CarryOnce(out: array<u64>)
    requires out.Length == 5 && PassReady(out[..])
    modifies out
    ensures out[..] == CarryPass(old(out[..]))
  {
    ghost var v: Limbs := out[..];
    CarryRange(v);
    hide Carry, Digit;
    CarryLimb(out, 0);
    assert out[..] == [Digit(v, 0), v[1] + Carry(v, 1), v[2], v[3], v[4]];
    CarryLimb(out, 1);
    assert out[..] == [Digit(v, 0), Digit(v, 1), v[2] + Carry(v, 2), v[3], v[4]];
    CarryLimb(out, 2);
    assert out[..] == [Digit(v, 0), Digit(v, 1), Digit(v, 2), v[3] + Carry(v, 3), v[4]];
    CarryLimb(out, 3);
    assert out[..] == [Digit(v, 0), Digit(v, 1), Digit(v, 2), Digit(v, 3), v[4] + Carry(v, 4)];
    CarryTop(out);
  }

  /** The last carry folded in at the bottom, then one carry pass: the common end of both
      multiplications. */
  method CarryTail(out: array<u64>, top: u128)
    requires out.Length == 5 && Below51(out[..])
    requires top <= 0xC00_0000_0000_0000
    modifies out
    ensures Reduced(out[..])
    ensures Eq(Val(out[..]), old(Val(out[..])) + 19 * top)
  {
    ghost var x: Limbs := out[..];
    out[0] := out[0] + top * 19;
    ghost var v: Limbs := out[..];
    assert v == x[0 := x[0] + top * 19];
    CarryOnce(out);
    PassMeaning(v);
    PassReduces(v);
    assert Val(v) == Val(x) + 19 * top by { hide CarryPass, Reduced; }
  }

  lemma CarryRange(v: Limbs)
    requires PassReady(v)
    ensures Digit(v, 0) == v[0] % LIMB && Carry(v, 1) == v[0] / LIMB < 0x2000
    ensures Digit(v, 1) == (v[1] + Carry(v, 1)) % LIMB && Carry(v, 2) == (v[1] + Carry(v, 1)) / LIMB <= 8
    ensures Digit(v, 2) == (v[2] + Carry(v, 2)) % LIMB && Carry(v, 3) == (v[2] + Carry(v, 2)) / LIMB <= 8
    ensures Digit(v, 3) == (v[3] + Carry(v, 3)) % LIMB && Carry(v, 4) == (v[3] + Carry(v, 3)) / LIMB <= 8
    ensures Digit(v, 4) == (v[4] + Carry(v, 4)) % LIMB && Carry(v, 5) == (v[4] + Carry(v, 4)) / LIMB <= 8
  {
    assert Carry(v, 0) == 0;
    assert Carry(v, 2) <= 8 && Carry(v, 3) <= 8 && Carry(v, 4) <= 8 && Carry(v, 5) <= 8;
  }

  /** A carry pass keeps the residue. */
  lemma PassMeaning(v: Limbs)
    ensures Eq(Val(CarryPass(v)), Val(v))
  {
    CarryMeaning(v);
    var top: int := Carry(v, 5);
    hide Digit, Carry;
    hide Eq;
    MultipleOfP(-top);
    EqIntro(Val(CarryPass(v)), Val(v), -top);
  }

  /** With the upper limbs already below 2^51 a pass leaves the product shape. */
  lemma PassReduces(v: Limbs)
    requires v[0] < 0x1_0000_0000_0000_0000 && forall k :: 1 <= k < 5 ==> v[k] < LIMB
    ensures Reduced(CarryPass(v))
  {
    CarryRange(v);
    assert Carry(v, 2) <= 1 && Carry(v, 3) <= 1 && Carry(v, 4) <= 1 && Carry(v, 5) <= 1;
    assert Carry(v, 5) == 1 ==> Carry(v, 4) == 1 ==> Digit(v, 4) == 0;
  }

  // ---------- multiplication, assembled ----------

  /** Cuts the five columns to 51 bits each, carrying upwards, and returns the last carry. */
  method CarryColumns(out: array<u64>, t: array<u128>, ghost cols: Columns) returns (c: u128)
    requires out.Length == 5 && t.Length == 9 && ColumnsFit(cols) && t[..] == Folded(cols)
    modifies out
    ensures out[..] == Digits(t[..])
    ensures c == Carry(t[..], 5) <= 0xC00_0000_0000_0000
  {
    ghost var x: Columns := t[..];
    ColumnCarries(cols);
    hide *;
    c := 0;
    var i := 0;
    while i < 5
      invariant 0 <= i <= 5
      invariant c == Carry(x, i) && x == t[..]
      invariant forall k :: 0 <= k < i ==> out[k] == Digit(x, k)
    {
      var v: u128 := t[i] + c;
      CarryStep(x, i);
      out[i] := v % 0x8_0000_0000_0000;
      c := v / 0x8_0000_0000_0000;
      i := i + 1;
    }
    DigitsAre(x, out[..]);
  }

  lemma CarryStep(v: seq<nat>, i: nat)
    requires i < |v|
    ensures Digit(v, i) == (v[i] + Carry(v, i)) % 0x8_0000_0000_0000
    ensures Carry(v, i + 1) == (v[i] + Carry(v, i)) / 0x8_0000_0000_0000
  {
  }

  lemma DigitsAre(v: seq<nat>, z: Limbs)
    requires |v| >= 5 && forall k :: 0 <= k < 5 ==> z[k] == Digit(v, k)
    ensures z == Digits(v)
  {
    hide Digit;
  }

  lemma ColumnCarries(t: Columns)
    requires ColumnsFit(t)
    ensures var v := Folded(t);
      && (forall k :: 0 <= k < 5 ==> v[k] + Carry(v, k) < 0x1_0000_0000_0000_0000_0000_0000_0000_0000)
      && Carry(v, 0) == 0 && Carry(v, 5) <= 0xC00_0000_0000_0000
  {
    var v := Folded(t);
    assert forall k :: 0 <= k < 4 ==> v[k] <= 100 * COLUMN;
    forall k | 0 <= k < 5 ensures Carry(v, k) <= 0x1_9000_0000_0000_0001 {
      CarryBound(v, k, 0xC800_0000_0000_0000);
    }
    assert Carry(v, 5) == (v[4] + Carry(v, 4)) / LIMB;
  }

  method Mul(out: array<u64>, a: array<u64>, b: array<u64>)
    requires out.Length == 5 && a.Length == 5 && b.Length == 5
    requires MaxLimb(a[..]) < TWO54 && MaxLimb(b[..]) < TWO54
    modifies out
    ensures Reduced(out[..])
    ensures Fe(out[..]) == FMul(old(Fe(a[..])), old(Fe(b[..])))
  {
    hide *;
    ghost var x: Limbs, y: Limbs := a[..], b[..];
    var t := Product(a, b);
    ghost var cols: Columns := t[..];
    SummedMeaning(x, y, cols);
    FoldHigh(t);
    var c := CarryColumns(out, t, cols);
    DigitsBelow(Folded(cols));
    CarryTail(out, c);
    ColumnsResidue(cols);
    MulMeaning(out[..], Digits(Folded(cols)), c, cols, x, y);
  }

  lemma SummedMeaning(x: Limbs, y: Limbs, t: Columns)
    requires Summed(t, x, y, 5, 0)
    ensures ColumnsFit(t) && Wide(t, 9) == Val(x) * Val(y)
  {
    WideLow(x);
    WideLow(y);
    hide Wide, Weigh;
  }

  lemma ColumnsResidue(t: Columns)
    ensures var u := Folded(t); Eq(Val(Digits(u)) + 19 * Carry(u, 5), Wide(t, 9))
  {
    hide Digit, Carry, Wide, Folded, Weigh, Eq, Residue;
    var u := Folded(t);
    FoldMeaning(t);
    CarryMeaning(u);
    FoldTop(Weigh(u[0], u[1], u[2], u[3], u[4]), Val(Digits(u)), Carry(u, 5));
    EqTrans(Val(Digits(u)) + 19 * Carry(u, 5), Weigh(u[0], u[1], u[2], u[3], u[4]), Wide(t, 9));
  }

  /** 2^255 is 19 modulo p. */
  lemma FoldTop(w: int, v: int, k: int)
    requires w == v + W5 * k
    ensures Eq(v + 19 * k, w)
  {
    MultipleOfP(-k);
    EqIntro(v + 19 * k, w, -k);
  }

  lemma MulMeaning(o: Limbs, z: Limbs, c: nat, t: Columns, x: Limbs, y: Limbs)
    requires Eq(Val(o), Val(z) + 19 * c) && Eq(Val(z) + 19 * c, Wide(t, 9))
    requires Wide(t, 9) == Val(x) * Val(y)
    ensures Fe(o) == FMul(Fe(x), Fe(y))
  {
    var v, w, p, q := Val(o), Val(z) + 19 * c, Val(x), Val(y);
    hide Val, Wide;
    EqTrans(v, w, p * q);
    EqSame(v, p * q);
    OpsOnResidues(p, q);
  }

  function Scaled(x: Limbs): Limbs {
    [121666 * x[0], 121666 * x[1], 121666 * x[2], 121666 * x[3], 121666 * x[4]]
  }

  /** out = 121666 * a; out may alias a. */
  method Mul121666(out: array<u64>, a: array<u64>)
    requires out.Length == 5 && a.Length == 5 && MaxLimb(a[..]) < TWO54
    modifies out
    ensures Reduced(out[..])
    ensures Fe(out[..]) == FMul(121666, old(Fe(a[..])))
  {
    hide *;
    ghost var x: Limbs := a[..];
    var c := ScaleColumns(out, a);
    DigitsBelow(Scaled(x));
    CarryTail(out, c);
    ScaledMeaning(x, out[..]);
  }

  method ScaleColumns(out: array<u64>, a: array<u64>) returns (c: u128)
    requires out.Length == 5 && a.Length == 5 && MaxLimb(a[..]) < TWO54
    modifies out
    ensures out[..] == Digits(Scaled(old(a[..])))
    ensures c == Carry(Scaled(old(a[..])), 5) <= 0xC00_0000_0000_0000
  {
    ghost var x: Limbs := a[..];
    ghost var s: Limbs := Scaled(x);
    ScaledCarries(x);
    hide *;
    c := 0;
    var i := 0;
    while i < 5
      invariant 0 <= i <= 5
      invariant c == Carry(s, i)
      invariant forall k :: 0 <= k < i ==> out[k] == Digit(s, k)
      invariant forall k :: i <= k < 5 ==> a[k] == x[k]
    {
      var v := a[i] as u128 * 121666 + c;
      CarryStep(s, i);
      out[i] := v % 0x8_0000_0000_0000;
      c := v / 0x8_0000_0000_0000;
      i := i + 1;
    }
    DigitsAre(s, out[..]);
  }

  lemma ScaledCarries(x: Limbs)
    requires MaxLimb(x) < TWO54
    ensures var s := Scaled(x);
      && (forall k :: 0 <= k < 5 ==> s[k] == x[k] * 121666 && s[k] + Carry(s, k) < 0x1_0000_0000_0000_0000_0000_0000_0000_0000)
      && Carry(s, 0) == 0 && Carry(s, 5) <= 0xC00_0000_0000_0000
  {
    LimbsBelowMax(x);
    hide MaxLimb;
    var s := Scaled(x);
    forall k | 0 <= k <= 5 ensures Carry(s, k) <= 0x200001 {
      CarryBound(s, k, 0x100000);
    }
  }

  lemma ScaledMeaning(x: Limbs, o: Limbs)
    requires Eq(Val(o), Val(Digits(Scaled(x))) + 19 * Carry(Scaled(x), 5))
    ensures Fe(o) == FMul(121666, Fe(x))
  {
    hide Digit, Digits, Carry, Val, Scaled, Eq, Residue;
    var v, w, k: int := Val(x), Val(Digits(Scaled(x))), Carry(Scaled(x), 5);
    ScaledValue(x);
    FoldTop(121666 * v, w, k);
    EqTrans(Val(o), w + 19 * k, 121666 * v);
    EqSame(Val(o), 121666 * v);
    OpsOnResidues(121666, v);
    PValue();
    OwnResidue(121666);
  }

  lemma ScaledValue(x: Limbs)
    ensures 121666 * Val(x) == Val(Digits(Scaled(x))) + W5 * Carry(Scaled(x), 5)
  {
    CarryMeaning(Scaled(x));
    hide Digit, Carry;
  }

  // ---------- sums and differences into fresh buffers ----------

  method SumAndDifference(x: array<u64>, z: array<u64>) returns (s: array<u64>, d: array<u64>)
    requires x.Length == 5 && z.Length == 5 && MaxLimb(x[..]) <= 0x10_0000_0000_0024 && Reduced(z[..])
    ensures fresh(s) && fresh(d) && s != d && s.Length == 5 && d.Length == 5
    ensures Fe(s[..]) == FAdd(Fe(x[..]), Fe(z[..])) && Fe(d[..]) == FSub(Fe(x[..]), Fe(z[..]))
    ensures MaxLimb(s[..]) < TWO54 && MaxLimb(d[..]) < TWO54
  {
    hide FAdd, FSub, Fe, MaxLimb, Reduced, AtMost2P, Residue;
    ReducedBounds(z[..]);
    s, d := new u64[5], new u64[5];
    Add(s, x, z);
    Sub(d, x, z);
  }

  // ---------- copies, constants, conditional swap ----------

  method Copy(out: array<u64>, a: array<u64>)
    requires out.Length == 5 && a.Length == 5
    modifies out
    ensures out[..] == old(a[..])
  {
    ghost var x := a[..];
    var i := 0;
    while i < 5
      invariant 0 <= i <= 5
      invariant forall k :: 0 <= k < i ==> out[k] == x[k]
      invariant forall k :: i <= k < 5 ==> a[k] == x[k]
    {
      out[i] := a[i];
      i := i + 1;
    }
  }

  /** limb 0 set to v, the others cleared. */
  method FromU64(out: array<u64>, v: u64)
    requires out.Length == 5
    modifies out
    ensures out[..] == [v, 0, 0, 0, 0]
  {
    out[0], out[1], out[2], out[3], out[4] := v, 0, 0, 0, 0;
  }

  lemma SmallValue(v: nat)
    requires v < 0x8_0000_0000_0000
    ensures var s: Limbs := [v, 0, 0, 0, 0]; Reduced(s) && Fe(s) == v && MaxLimb(s) == v
  {
    PValue();
    OwnResidue(v);
    hide Residue;
  }

  /** A fresh buffer holding a small constant. */
  method NewSmall(v: u64) returns (a: array<u64>)
    requires v < 0x8_0000_0000_0000
    ensures fresh(a) && a.Length == 5 && Reduced(a[..]) && Fe(a[..]) == v && MaxLimb(a[..]) == v
  {
    hide *;
    a := new u64[5];
    FromU64(a, v);
    SmallValue(v);
  }

  const ONES: u64 := 0xffff_ffff_ffff_ffff

  /** The branch-free exchange of one limb pair: with the all-ones mask the two words trade
      places, with the zero mask they stay. */
  lemma MaskedSwap(x: u64, y: u64)
    ensures Xor(x, y) <= ONES
    ensures Xor(x, And(ONES, Xor(x, y))) == y && Xor(y, And(ONES, Xor(x, y))) == x
    ensures Xor(x, And(0, Xor(x, y))) == x && Xor(y, And(0, Xor(x, y))) == y
    ensures And(0, Xor(x, y)) <= ONES && And(ONES, Xor(x, y)) <= ONES
  {
    Pow2Values();
    XorBelow(x, y, 64);
    AndOnes(Xor(x, y), 64);
    XorCancels(x, y);
    XorComm(x, y);
    XorCancels(y, x);
    XorZero(x);
    XorZero(y);
    assert And(0, Xor(x, y)) == 0;
    hide *;
  }

  /** Exchanges a and b when swap is set, by masks. */
  method CSwap(a: array<u64>, b: array<u64>, swap: bool)
    requires a.Length == 5 && b.Length == 5 && a != b
    modifies a, b
    ensures a[..] == if swap then old(b[..]) else old(a[..])
    ensures b[..] == if swap then old(a[..]) else old(b[..])
  {
    ghost var x, y := a[..], b[..];
    var mask: u64 := if swap then ONES else 0;
    var i := 0;
    while i < 5
      invariant 0 <= i <= 5
      invariant forall k :: 0 <= k < i ==> a[k] == (if swap then y[k] else x[k]) && b[k] == (if swap then x[k] else y[k])
      invariant forall k :: i <= k < 5 ==> a[k] == x[k] && b[k] == y[k]
    {
      MaskedSwap(a[i], b[i]);
      hide *;
      var m: u64 := And(mask, Xor(a[i], b[i]));
      a[i] := Xor(a[i], m);
      b[i] := Xor(b[i], m);
      i := i + 1;
    }
  }

  // ---------- exponentiation ----------

  /** Squaring and an optional multiplication consume one more exponent bit. */
  lemma PowBit(x: Fp, e: seq<byte>, bit: nat)
    requires |e| == 32 && bit < 256
    ensures var y := FPow(x, Shr(LE(e), bit + 1));
      FPow(x, Shr(LE(e), bit)) == if Bit(e, bit) == 1 then FMul(FMul(y, y), x) else FMul(y, y)
  {
    BitIsBit(e, bit);
    HalfStep(LE(e), bit);
    var m, n := Shr(LE(e), bit), Shr(LE(e), bit + 1);
    hide FMul, Pow2, LE, Shr, Bit, Residue;
    FPowAdd(x, n, n);
    assert m == 2 * n || m == 2 * n + 1;
    FMulComm(x, FPow(x, 2 * n));
  }

  /** out = a^e, most significant bit first. */
  method Pow(out: array<u64>, a: array<u64>, e: seq<byte>)
    requires out.Length == 5 && a.Length == 5 && |e| == 32 && MaxLimb(a[..]) < TWO54
    modifies out
    ensures Reduced(out[..])
    ensures Fe(out[..]) == FPow(old(Fe(a[..])), LE(e))
  {
    hide *;
    var r := new u64[5];
    FromU64(r, 1);
    SmallValue(1);
    ghost var x := Fe(a[..]);
    PowEnds(x, e);
    var bit := 256;
    while bit > 0
      invariant 0 <= bit <= 256 && a[..] == old(a[..])
      invariant Reduced(r[..]) && Fe(r[..]) == FPow(x, Shr(LE(e), bit))
    {
      bit := bit - 1;
      PowBit(x, e, bit);
      PowStep(r, a, Bit(e, bit) == 1);
    }
    Copy(out, r);
  }

  method PowStep(r: array<u64>, a: array<u64>, bit: bool)
    requires r.Length == 5 && a.Length == 5 && r != a && Reduced(r[..]) && MaxLimb(a[..]) < TWO54
    modifies r
    ensures Reduced(r[..])
    ensures var y := old(Fe(r[..])); Fe(r[..]) == if bit then FMul(FMul(y, y), Fe(a[..])) else FMul(y, y)
  {
    hide FMul, Fe, MaxLimb, Reduced, Residue;
    ReducedBounds(r[..]);
    Mul(r, r, r);
    if bit {
      ReducedBounds(r[..]);
      Mul(r, r, a);
    }
  }

  lemma PowEnds(x: Fp, e: seq<byte>)
    requires |e| == 32
    ensures FPow(x, Shr(LE(e), 256)) == 1 && Shr(LE(e), 0) == LE(e)
  {
    LEBound(e);
    hide Pow2, LE, Shr;
    ShrEnds(LE(e), 256);
  }

  // little-endian exponent tables: a low byte, thirty 0xff, a high byte
  const P_MINUS_2: seq<byte> := [0xeb] + Repeat(0xff, 30) + [0x7f]
  const P58_EXP: seq<byte> := [0xfe] + Repeat(0xff, 30) + [0x0f]
  const P14_EXP: seq<byte> := [0xfb] + Repeat(0xff, 30) + [0x1f]

  /** The three exponent tables are p - 2, (p + 3) / 8 and (p - 1) / 4. */
  lemma ExponentTables()
    ensures |P_MINUS_2| == 32 && LE(P_MINUS_2) == P - 2
    ensures |P58_EXP| == 32 && LE(P58_EXP) * 8 == P + 3
    ensures |P14_EXP| == 32 && LE(P14_EXP) * 4 == P - 1
  {
    PValue();
    TableValue(0xeb, 0x7f, 30);
    TableValue(0xfe, 0x0f, 30);
    TableValue(0xfb, 0x1f, 30);
    hide LE, Repeat;
  }

  const TWO240: nat := 0x1_0000_0000_0000_0000_0000_0000_0000_0000_0000_0000_0000_0000_0000_0000_0000

  lemma TableValue(low: byte, high: byte, n: nat)
    requires n == 30
    ensures LE([low] + Repeat(0xff, n) + [high]) == low + 0x100 * (TWO240 - 1) + 0x100 * TWO240 * high
  {
    hide Pow2, Repeat, LE;
    var f := Repeat(0xff, n);
    TableWeights(8, 8 * n);
    Pow2Add(8, 8 * n);
    RepeatValue(0xff, n);
    LEAppend([low], f);
    LEAppend([low] + f, [high]);
    OneByte(low);
    OneByte(high);
  }

  lemma TableWeights(m: nat, n: nat)
    requires m == 8 && n == 240
    ensures Pow2(m) == 0x100 && Pow2(n) == TWO240
  {
    hide Pow2;
    Pow2Values();
    Pow2Add(192, 32);
    Pow2Add(224, 16);
  }
}
