/** src/curve25519.c: the X25519 function of RFC 7748, section 5. */
module X25519 {
  import opened Arithmetic
  import opened Bytes
  import opened Field
  import opened Fe25519
  import opened FeBytes

  // ---------- the reference function ----------

  /** Projective u-coordinates of the two points a ladder carries. */
  datatype Ladder = Ladder(x2: Fp, z2: Fp, x3: Fp, z3: Fp)

  function Swapped(s: Ladder, swap: bool): Ladder {
    if swap then Ladder(s.x3, s.z3, s.x2, s.z2) else s
  }

  /** One ladder step as RFC 7748 writes it, with a24 = 121665. */
  function Step(x1: Fp, s: Ladder): Ladder {
    var a := FAdd(s.x2, s.z2);
    var aa := FMul(a, a);
    var b := FSub(s.x2, s.z2);
    var bb := FMul(b, b);
    var e := FSub(aa, bb);
    var da := FMul(FSub(s.x3, s.z3), a);
    var cb := FMul(FAdd(s.x3, s.z3), b);
    Ladder(FMul(aa, bb), FMul(e, FAdd(aa, FMul(121665, e))),
           FMul(FAdd(da, cb), FAdd(da, cb)), FMul(x1, FMul(FSub(da, cb), FSub(da, cb))))
  }

  /** The pair after bits 254 down to t of the scalar, swapping before and after each step. */
  function Climb(x1: Fp, k: nat, t: nat): Ladder
    requires t <= 255
    decreases 255 - t
  {
    if t == 255 then Ladder(1, 0, x1, 1)
    else
      var bit := Shr(k, t) % 2 == 1;
      Swapped(Step(x1, Swapped(Climb(x1, k, t + 1), bit)), bit)
  }

  /** decodeScalar25519: clear the low three bits and bit 255, set bit 254. */
  function Clamp(s: seq<byte>): (e: seq<byte>)
    requires |s| == 32
    ensures |e| == 32
  {
    [s[0] - s[0] % 8] + s[1..31] + [s[31] % 64 + 64]
  }

  /** The u-coordinate of k times the point with the given u-coordinate, as bytes. */
  function Curve25519(scalar: seq<byte>, point: seq<byte>): (r: seq<byte>)
    requires |scalar| == 32 && |point| == 32
    ensures |r| == 32
  {
    var s := Climb(Residue(LE(point) % W5), LE(Clamp(scalar)), 0);
    ToLE(FMul(s.x2, FInv(s.z2)), 32)
  }

  /** Clamped scalars are multiples of the cofactor with bit 254 as their highest bit. */
  lemma ClampValue(s: seq<byte>)
    requires |s| == 32
    ensures LE(Clamp(s)) % 8 == 0
    ensures W5 / 2 <= LE(Clamp(s)) < W5
  {
    var e := Clamp(s);
    assert LE(e) == e[0] + 0x100 * LE(e[1..]);
    hide LE;
    LastByte(e);
  }

  /** The clamped scalar as a number: bits 3 to 253 of the input, and bit 254. */
  lemma ClampNumber(s: seq<byte>)
    requires |s| == 32
    ensures LE(Clamp(s)) == Pow2(254) + 8 * (LE(s) / 8 % Pow2(251))
  {
    var e, m := Clamp(s), LE(s[1..31]);
    assert s[..31] == [s[0]] + s[1..31] && e[..31] == [e[0]] + s[1..31];
    assert LE(s[..31]) == s[0] + 0x100 * m && LE(e[..31]) == e[0] + 0x100 * m by {
      assert s[..31][1..] == s[1..31] && e[..31][1..] == s[1..31];
    }
    LastByte(s);
    LastByte(e);
    ScalarPowers();
    hide LE, Pow2, Clamp;
    ClampArithmetic(s[0], m, s[31], LE(s), LE(e));
  }

  const W245: nat := 0x20_0000_0000_0000_0000_0000_0000_0000_0000_0000_0000_0000_0000_0000_0000_0000
  const W251: nat := 64 * W245

  lemma ScalarPowers()
    ensures Pow2(251) == W251 && Pow2(254) == W5 / 2
  {
    Pow2Values();
    hide Pow2;
    Pow2Double(254);
    Pow2Double(253);
    Pow2Double(252);
    Pow2Double(251);
  }

  lemma ClampArithmetic(low: nat, m: nat, top: nat, v: nat, e: nat)
    requires low < 0x100 && top < 0x100 && low + 0x100 * m < W248
    requires v == low + 0x100 * m + W248 * top
    requires e == low - low % 8 + 0x100 * m + W248 * (top % 64 + 64)
    ensures e == W5 / 2 + 8 * (v / 8 % W251)
  {
    var t := low / 8 + 32 * m;
    DivModUnique(v, 8, t + W245 * top, low % 8);
    DivModUnique(t + W245 * top, W251, top / 64, t + W245 * (top % 64));
  }

  /** The source computes E (BB + 121666 E); it equals E (AA + 121665 E) since E = AA - BB. */
  lemma RewrittenConstant(aa: int, bb: int)
    ensures var e := FSub(aa, bb); FAdd(bb, FMul(121666, e)) == FAdd(aa, FMul(121665, e))
  {
    var e: int := FSub(aa, bb);
    OpsEq(aa, bb);
    OpsEq(121666, e);
    OpsEq(121665, e);
    EqRefl(aa);
    EqRefl(bb);
    hide FAdd, FMul, FSub, Eq, Residue;
    EqOp(bb, bb, FMul(121666, e), 121666 * e);
    EqOp(aa, aa, FMul(121665, e), 121665 * e);
    EqRefl(121665 * e);
    EqOp(e, aa - bb, 121665 * e, 121665 * e);
    // bb + 121666 e = (bb + 121665 e) + e is congruent to (bb + 121665 e) + (aa - bb)
    EqRefl(bb + 121665 * e);
    EqOp(bb + 121665 * e, bb + 121665 * e, e, aa - bb);
    assert bb + 121665 * e + e == bb + 121666 * e;
    assert bb + 121665 * e + (aa - bb) == aa + 121665 * e;
    SumsAgree(bb, FMul(121666, e), bb + 121666 * e, aa, FMul(121665, e), aa + 121665 * e);
  }

  lemma SumsAgree(a: int, b: int, x: int, c: int, d: int, y: int)
    requires Eq(a + b, x) && Eq(c + d, y) && Eq(x, y)
    ensures FAdd(a, b) == FAdd(c, d)
  {
    EqSym(c + d, y);
    EqTrans(a + b, x, y);
    EqTrans(a + b, y, c + d);
    EqIff(a + b, c + d);
  }

  // ---------- the in-place ladder ----------

  predicate Distinct(a: array<u64>, b: array<u64>, c: array<u64>, d: array<u64>) {
    a != b && a != c && a != d && b != c && b != d && c != d
  }

  /** The first half of the loop body: AA, BB, E, DA and CB. */
  method Products(x2: array<u64>, z2: array<u64>, x3: array<u64>, z3: array<u64>)
    returns (aa: array<u64>, bb: array<u64>, e: array<u64>, da: array<u64>, cb: array<u64>)
    requires x2.Length == 5 && z2.Length == 5 && x3.Length == 5 && z3.Length == 5
    requires Reduced(x2[..]) && Reduced(z2[..]) && Reduced(x3[..]) && Reduced(z3[..])
    ensures fresh(aa) && fresh(bb) && fresh(e) && fresh(da) && fresh(cb)
    ensures aa.Length == 5 && bb.Length == 5 && e.Length == 5 && da.Length == 5 && cb.Length == 5
    ensures Reduced(aa[..]) && Reduced(bb[..]) && Reduced(da[..]) && Reduced(cb[..]) && MaxLimb(e[..]) < TWO54
    ensures var a, b := FAdd(Fe(x2[..]), Fe(z2[..])), FSub(Fe(x2[..]), Fe(z2[..]));
      && Fe(aa[..]) == FMul(a, a) && Fe(bb[..]) == FMul(b, b) && Fe(e[..]) == FSub(FMul(a, a), FMul(b, b))
      && Fe(da[..]) == FMul(FSub(Fe(x3[..]), Fe(z3[..])), a) && Fe(cb[..]) == FMul(FAdd(Fe(x3[..]), Fe(z3[..])), b)
  {
    hide FAdd, FSub, FMul, Fe, MaxLimb, Reduced, AtMost2P, Residue;
    ReducedBounds(x2[..]);
    ReducedBounds(x3[..]);
    var a, b := SumAndDifference(x2, z2);
    var c, d := SumAndDifference(x3, z3);
    aa, bb, e := Squares(a, b);
    da, cb := new u64[5], new u64[5];
    Mul(da, d, a);
    Mul(cb, c, b);
  }

  /** AA = A^2, BB = B^2, E = AA - BB */
  method Squares(a: array<u64>, b: array<u64>) returns (aa: array<u64>, bb: array<u64>, e: array<u64>)
    requires a.Length == 5 && b.Length == 5 && MaxLimb(a[..]) < TWO54 && MaxLimb(b[..]) < TWO54
    ensures fresh(aa) && fresh(bb) && fresh(e) && aa.Length == 5 && bb.Length == 5 && e.Length == 5
    ensures Reduced(aa[..]) && Reduced(bb[..]) && MaxLimb(e[..]) < TWO54
    ensures var x, y := Fe(a[..]), Fe(b[..]);
      Fe(aa[..]) == FMul(x, x) && Fe(bb[..]) == FMul(y, y) && Fe(e[..]) == FSub(FMul(x, x), FMul(y, y))
  {
    hide FAdd, FSub, FMul, Fe, MaxLimb, Reduced, AtMost2P, Residue;
    aa, bb, e := new u64[5], new u64[5], new u64[5];
    Mul(aa, a, a);
    Mul(bb, b, b);
    ReducedBounds(aa[..]);
    ReducedBounds(bb[..]);
    Sub(e, aa, bb);
  }

  /** The second half: the new x3, z3, x2 and z2. */
  method Combine(x1: array<u64>, x2: array<u64>, z2: array<u64>, x3: array<u64>, z3: array<u64>,
                 aa: array<u64>, bb: array<u64>, e: array<u64>, da: array<u64>, cb: array<u64>)
    requires x1.Length == 5 && x2.Length == 5 && z2.Length == 5 && x3.Length == 5 && z3.Length == 5
    requires aa.Length == 5 && bb.Length == 5 && e.Length == 5 && da.Length == 5 && cb.Length == 5
    requires Distinct(x2, z2, x3, z3) && {x2, z2, x3, z3} !! {x1, aa, bb, e, da, cb}
    requires MaxLimb(x1[..]) < TWO54 && MaxLimb(e[..]) < TWO54
    requires Reduced(aa[..]) && Reduced(bb[..]) && Reduced(da[..]) && Reduced(cb[..])
    modifies x2, z2, x3, z3
    ensures Reduced(x2[..]) && Reduced(z2[..]) && Reduced(x3[..]) && Reduced(z3[..])
    ensures var s, d := FAdd(Fe(da[..]), Fe(cb[..])), FSub(Fe(da[..]), Fe(cb[..]));
      && Fe(x3[..]) == FMul(s, s) && Fe(z3[..]) == FMul(Fe(x1[..]), FMul(d, d))
      && Fe(x2[..]) == FMul(Fe(aa[..]), Fe(bb[..]))
      && Fe(z2[..]) == FMul(Fe(e[..]), FAdd(Fe(bb[..]), FMul(121666, Fe(e[..]))))
  {
    hide FAdd, FSub, FMul, Fe, MaxLimb, Reduced, AtMost2P, Residue;
    ReducedBounds(aa[..]);
    ReducedBounds(bb[..]);
    ReducedBounds(da[..]);
    ReducedBounds(cb[..]);
    var t1, t2 := new u64[5], new u64[5];
    Add(t1, da, cb);
    Mul(x3, t1, t1);
    Sub(t2, da, cb);
    Mul(t2, t2, t2);
    ReducedBounds(t2[..]);
    Mul(z3, x1, t2);
    Mul(x2, aa, bb);
    Mul121666(t1, e);
    ReducedBounds(t1[..]);
    Add(t1, bb, t1);
    Mul(z2, e, t1);
  }

  /** The ladder variables, read as field elements. */
  ghost function State(x2: array<u64>, z2: array<u64>, x3: array<u64>, z3: array<u64>): Ladder
    requires x2.Length == 5 && z2.Length == 5 && x3.Length == 5 && z3.Length == 5
    reads x2, z2, x3, z3
  {
    Ladder(Fe(x2[..]), Fe(z2[..]), Fe(x3[..]), Fe(z3[..]))
  }

  ghost predicate AllReduced(x2: array<u64>, z2: array<u64>, x3: array<u64>, z3: array<u64>)
    requires x2.Length == 5 && z2.Length == 5 && x3.Length == 5 && z3.Length == 5
    reads x2, z2, x3, z3
  {
    Reduced(x2[..]) && Reduced(z2[..]) && Reduced(x3[..]) && Reduced(z3[..])
  }

  method LadderStep(x1: array<u64>, x2: array<u64>, z2: array<u64>, x3: array<u64>, z3: array<u64>)
    requires x1.Length == 5 && x2.Length == 5 && z2.Length == 5 && x3.Length == 5 && z3.Length == 5
    requires Distinct(x2, z2, x3, z3) && x1 !in {x2, z2, x3, z3}
    requires MaxLimb(x1[..]) < TWO54 && AllReduced(x2, z2, x3, z3)
    modifies x2, z2, x3, z3
    ensures AllReduced(x2, z2, x3, z3)
    ensures State(x2, z2, x3, z3) == Step(Fe(x1[..]), old(State(x2, z2, x3, z3)))
  {
    hide FAdd, FSub, FMul, Fe, MaxLimb, Reduced, Residue;
    var aa, bb, e, da, cb := Products(x2, z2, x3, z3);
    RewrittenConstant(Fe(aa[..]), Fe(bb[..]));
    Combine(x1, x2, z2, x3, z3, aa, bb, e, da, cb);
  }

  method SwapPair(x2: array<u64>, z2: array<u64>, x3: array<u64>, z3: array<u64>, swap: bool)
    requires x2.Length == 5 && z2.Length == 5 && x3.Length == 5 && z3.Length == 5
    requires Distinct(x2, z2, x3, z3) && AllReduced(x2, z2, x3, z3)
    modifies x2, z2, x3, z3
    ensures AllReduced(x2, z2, x3, z3)
    ensures State(x2, z2, x3, z3) == Swapped(old(State(x2, z2, x3, z3)), swap)
  {
    hide Fe, Reduced, Residue;
    CSwap(x2, x3, swap);
    CSwap(z2, z3, swap);
  }

  lemma SwapTwice(s: Ladder, a: bool, b: bool)
    ensures Swapped(Swapped(s, a), a != b) == Swapped(s, b)
  {
  }

  /** curve25519_eval: the bytes written are the RFC 7748 function of the two inputs. */
  method Eval(out: array<byte>, scalar: seq<byte>, point: seq<byte>)
    requires out.Length == 32 && |scalar| == 32 && |point| == 32
    modifies out
    ensures out[..] == Curve25519(scalar, point)
  {
    hide Fe, MaxLimb, Reduced, LE, Clamp, Climb, FMul, FInv, ToLE, Residue;
    var e := new byte[32];
    ClampBytes(e, scalar);
    var x1, x3 := LoadPoint(point);
    var x2 := NewSmall(1);
    var z2 := NewSmall(0);
    var z3 := NewSmall(1);
    RunLadder(x1, x2, z2, x3, z3, e[..]);
    Finish(out, x2, z2);
  }

  /** The input u-coordinate, twice: the fixed difference and the running x3. */
  method LoadPoint(point: seq<byte>) returns (x1: array<u64>, x3: array<u64>)
    requires |point| == 32
    ensures fresh(x1) && fresh(x3) && x1 != x3 && x1.Length == 5 && x3.Length == 5
    ensures MaxLimb(x1[..]) < TWO54 && Reduced(x3[..])
    ensures Fe(x1[..]) == Fe(x3[..]) == Residue(LE(point) % W5)
  {
    hide Below51, Val, MaxLimb, Reduced, LE;
    x1, x3 := new u64[5], new u64[5];
    FromBytes(x1, point);
    InputBounds(x1[..]);
    Copy(x3, x1);
  }

  lemma InputBounds(s: Limbs)
    requires Below51(s)
    ensures MaxLimb(s) < TWO54 && Reduced(s)
  {
  }

  method ClampBytes(e: array<byte>, scalar: seq<byte>)
    requires e.Length == 32 && |scalar| == 32
    modifies e
    ensures e[..] == Clamp(scalar)
  {
    forall k | 0 <= k < 32 { e[k] := scalar[k]; }
    e[0] := e[0] - e[0] % 8;
    e[31] := e[31] % 128;
    e[31] := e[31] % 64 + 64;
  }

  /** All 255 iterations with the swap deferred to the next one, and the closing swap. */
  method RunLadder(x1: array<u64>, x2: array<u64>, z2: array<u64>, x3: array<u64>, z3: array<u64>, e: seq<byte>)
    requires x1.Length == 5 && x2.Length == 5 && z2.Length == 5 && x3.Length == 5 && z3.Length == 5
    requires Distinct(x2, z2, x3, z3) && x1 !in {x2, z2, x3, z3} && |e| == 32
    requires MaxLimb(x1[..]) < TWO54 && AllReduced(x2, z2, x3, z3)
    requires State(x2, z2, x3, z3) == Ladder(1, 0, Fe(x1[..]), 1)
    modifies x2, z2, x3, z3
    ensures AllReduced(x2, z2, x3, z3)
    ensures State(x2, z2, x3, z3) == Climb(Fe(x1[..]), LE(e), 0)
  {
    hide FAdd, FSub, FMul, Fe, MaxLimb, Reduced, LE, Shr, Bit, Step, State, AllReduced, Residue;
    ghost var u, k := Fe(x1[..]), LE(e);
    var swap := false;
    var t := 255;
    while t > 0
      invariant 0 <= t <= 255
      invariant AllReduced(x2, z2, x3, z3)
      invariant State(x2, z2, x3, z3) == Swapped(Climb(u, k, t), swap)
    {
      t := t - 1;
      BitIsBit(e, t);
      var kt := Bit(e, t) == 1;
      SwapTwice(Climb(u, k, t + 1), swap, kt);
      swap := swap != kt;
      SwapPair(x2, z2, x3, z3, swap);
      swap := kt;
      LadderStep(x1, x2, z2, x3, z3);
      SwapTwice(Step(u, Swapped(Climb(u, k, t + 1), kt)), kt, kt);
    }
    SwapPair(x2, z2, x3, z3, swap);
    SwapTwice(Climb(u, k, 0), swap, false);
  }

  /** x2 / z2 by inversion, encoded. */
  method Finish(out: array<byte>, x2: array<u64>, z2: array<u64>)
    requires out.Length == 32 && x2.Length == 5 && z2.Length == 5 && Reduced(x2[..]) && Reduced(z2[..])
    modifies out
    ensures out[..] == ToLE(FMul(Fe(x2[..]), FInv(Fe(z2[..]))), 32)
  {
    hide FMul, FInv, Fe, MaxLimb, Reduced, ToLE, AtMost2P, Residue;
    ReducedBounds(x2[..]);
    ReducedBounds(z2[..]);
    var zi, res := new u64[5], new u64[5];
    Invert(zi, z2);
    ReducedBounds(zi[..]);
    Mul(res, x2, zi);
    ReducedBounds(res[..]);
    ToBytes(out, res);
  }
}
