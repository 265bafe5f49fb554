/** src/ed25519.c, group code: points as four limb arrays written in place. */
module Ge {
  import opened Arithmetic
  import opened Bytes
  import opened Field
  import opened Fe25519
  import opened FeBytes
  import opened PrimeField
  import opened Edwards
  import opened Extended

  /** A ge_p3: the four coordinate buffers are allocated with the point and never shared. */
  class GeP3 {
    const X: array<u64>
    const Y: array<u64>
    const Z: array<u64>
    const T: array<u64>

    constructor ()
      ensures Shape() && fresh(Limbs())
    {
      X, Y, Z, T := new u64[5], new u64[5], new u64[5], new u64[5];
      new;
    }

    ghost predicate Shape() {
      && X.Length == 5 && Y.Length == 5 && Z.Length == 5 && T.Length == 5
      && X != Y && X != Z && X != T && Y != Z && Y != T && Z != T
    }

    ghost function Limbs(): set<array<u64>> { {X, Y, Z, T} }

    /** The bound class every group operation keeps: X and T at most 2p limbwise, Y and Z in
        product shape. */
    ghost predicate Valid()
      reads X, Y, Z, T
    {
      Shape() && AtMost2P(X[..]) && Reduced(Y[..]) && Reduced(Z[..]) && AtMost2P(T[..])
    }

    ghost function Value(): Ext
      requires Shape()
      reads X, Y, Z, T
    {
      Ext(Fe(X[..]), Fe(Y[..]), Fe(Z[..]), Fe(T[..]))
    }
  }

  /** The curve constants ed_init computes: d, 2d and a square root of -1. */
  class EdCtx {
    const d: array<u64>
    const d2: array<u64>
    const sqrtm1: array<u64>

    constructor ()
      ensures fresh(d) && fresh(d2) && fresh(sqrtm1)
      ensures d.Length == 5 && d2.Length == 5 && sqrtm1.Length == 5 && d != d2 && d != sqrtm1 && d2 != sqrtm1
    {
      d, d2, sqrtm1 := new u64[5], new u64[5], new u64[5];
      new;
    }

    ghost predicate Valid()
      reads d, d2, sqrtm1
    {
      && d.Length == 5 && d2.Length == 5 && sqrtm1.Length == 5
      && Reduced(d[..]) && MaxLimb(d2[..]) < TWO54 && Reduced(sqrtm1[..])
    }

    ghost function Limbs(): set<array<u64>> { {d, d2, sqrtm1} }
  }

  lemma AtMost2PBounds(s: Limbs)
    requires AtMost2P(s)
    ensures MaxLimb(s) <= 0x10_0000_0000_0000
  {
  }

  /** (Y1 - X1)(Y2 - X2) and (Y1 + X1)(Y2 + X2) */
  method SumProducts(p: GeP3, q: GeP3) returns (a: array<u64>, b: array<u64>)
    requires p.Valid() && q.Valid()
    ensures fresh(a) && fresh(b) && a != b && a.Length == 5 && b.Length == 5
    ensures Reduced(a[..]) && Reduced(b[..])
    ensures Fe(a[..]) == FMul(FSub(p.Value().Y, p.Value().X), FSub(q.Value().Y, q.Value().X))
    ensures Fe(b[..]) == FMul(FAdd(p.Value().Y, p.Value().X), FAdd(q.Value().Y, q.Value().X))
  {
    hide FAdd, FSub, FMul, Fe, MaxLimb, Reduced, AtMost2P, Residue;
    ReducedBounds(p.Y[..]);
    ReducedBounds(q.Y[..]);
    AtMost2PBounds(p.X[..]);
    AtMost2PBounds(q.X[..]);
    var t, u := new u64[5], new u64[5];
    a, b := new u64[5], new u64[5];
    Sub(t, p.Y, p.X);
    Sub(u, q.Y, q.X);
    Mul(a, t, u);
    Add(t, p.Y, p.X);
    Add(u, q.Y, q.X);
    Mul(b, t, u);
  }

  /** C = T1 * T2 * 2d and D = 2 Z1 Z2 */
  method ScaleProducts(p: GeP3, q: GeP3, c: EdCtx) returns (cc: array<u64>, d: array<u64>)
    requires p.Valid() && q.Valid() && c.Valid()
    ensures fresh(cc) && fresh(d) && cc != d && cc.Length == 5 && d.Length == 5
    ensures Reduced(cc[..]) && MaxLimb(d[..]) <= 0x10_0000_0000_0024
    ensures Fe(cc[..]) == FMul(FMul(p.Value().T, q.Value().T), Fe(c.d2[..]))
    ensures Fe(d[..]) == FAdd(FMul(p.Value().Z, q.Value().Z), FMul(p.Value().Z, q.Value().Z))
  {
    hide FAdd, FSub, FMul, Fe, MaxLimb, Reduced, AtMost2P, Residue;
    AtMost2PBounds(p.T[..]);
    AtMost2PBounds(q.T[..]);
    ReducedBounds(p.Z[..]);
    ReducedBounds(q.Z[..]);
    var t := new u64[5];
    cc, d := new u64[5], new u64[5];
    Mul(t, p.T, q.T);
    ReducedBounds(t[..]);
    Mul(cc, t, c.d2);
    Mul(t, p.Z, q.Z);
    ReducedBounds(t[..]);
    Add(d, t, t);
  }

  method AddTerms(p: GeP3, q: GeP3, c: EdCtx)
    returns (e: array<u64>, f: array<u64>, g: array<u64>, h: array<u64>)
    requires p.Valid() && q.Valid() && c.Valid()
    ensures fresh(e) && fresh(f) && fresh(g) && fresh(h)
    ensures e.Length == 5 && f.Length == 5 && g.Length == 5 && h.Length == 5
    ensures MaxLimb(e[..]) < TWO54 && MaxLimb(f[..]) < TWO54 && MaxLimb(g[..]) < TWO54 && MaxLimb(h[..]) < TWO54
    ensures Factors(Fe(e[..]), Fe(f[..]), Fe(g[..]), Fe(h[..])) == AddFactors(p.Value(), q.Value(), Fe(c.d2[..]))
  {
    hide FAdd, FSub, FMul, Fe, MaxLimb, Reduced, AtMost2P, Residue;
    var a, b := SumProducts(p, q);
    var cc, d := ScaleProducts(p, q, c);
    ReducedBounds(b[..]);
    h, e := SumAndDifference(b, a);
    g, f := SumAndDifference(d, cc);
  }

  /** r = p + q; r may be p, q or both. */
  method GeAdd(r: GeP3, p: GeP3, q: GeP3, c: EdCtx)
    requires r.Shape() && p.Valid() && q.Valid() && c.Valid()
    requires r == p || r.Limbs() !! p.Limbs()
    requires r == q || r.Limbs() !! q.Limbs()
    requires r.Limbs() !! c.Limbs()
    modifies r.Limbs()
    ensures r.Valid()
    ensures r.Value() == ExtAdd(old(p.Value()), old(q.Value()), old(Fe(c.d2[..])))
  {
    hide FAdd, FSub, FMul, Fe, MaxLimb, Reduced, AtMost2P, AddFactors, Residue;
    var e, f, g, h := AddTerms(p, q, c);
    Mul(r.X, e, f);
    Mul(r.Y, g, h);
    Mul(r.T, e, h);
    Mul(r.Z, f, g);
    ReducedBounds(r.X[..]);
    ReducedBounds(r.T[..]);
  }

  method GeIdentity(p: GeP3)
    requires p.Shape()
    modifies p.Limbs()
    ensures p.Valid() && p.Value() == IDENTITY
  {
    hide Fe, Reduced, AtMost2P, MaxLimb, Residue;
    FromU64(p.X, 0);
    FromU64(p.Y, 1);
    FromU64(p.Z, 1);
    FromU64(p.T, 0);
    SmallValue(0);
    SmallValue(1);
    ReducedBounds([0, 0, 0, 0, 0]);
  }

  /** *r = *p */
  method GeCopy(r: GeP3, p: GeP3)
    requires r.Shape() && p.Valid() && (r == p || r.Limbs() !! p.Limbs())
    modifies r.Limbs()
    ensures r.Valid() && r.Value() == old(p.Value())
  {
    hide Fe, Reduced, AtMost2P, Residue;
    Copy(r.X, p.X);
    Copy(r.Y, p.Y);
    Copy(r.Z, p.Z);
    Copy(r.T, p.T);
  }

  method GeNegate(r: GeP3, p: GeP3)
    requires r.Shape() && p.Valid() && (r == p || r.Limbs() !! p.Limbs())
    modifies r.Limbs()
    ensures r.Valid() && r.Value() == ExtNeg(old(p.Value()))
  {
    hide Fe, Reduced, AtMost2P, FNeg, Residue;
    Neg(r.X, p.X);
    Copy(r.Y, p.Y);
    Copy(r.Z, p.Z);
    Neg(r.T, p.T);
  }

  method GeCSwap(a: GeP3, b: GeP3, swap: bool)
    requires a.Valid() && b.Valid() && a.Limbs() !! b.Limbs()
    modifies a.Limbs(), b.Limbs()
    ensures a.Valid() && b.Valid()
    ensures a.Value() == if swap then old(b.Value()) else old(a.Value())
    ensures b.Value() == if swap then old(a.Value()) else old(b.Value())
  {
    hide Fe, Reduced, AtMost2P, Residue;
    CSwap(a.X, b.X, swap);
    CSwap(a.Y, b.Y, swap);
    CSwap(a.Z, b.Z, swap);
    CSwap(a.T, b.T, swap);
  }

  // ---------- the scalar ladder ----------

  /** The pair (r0, r1) after bits 254 down to t. */
  function Rungs(p: Ext, k: nat, t: nat, d2: Fp): (Ext, Ext)
    requires t <= 255
    decreases 255 - t
  {
    if t == 255 then (IDENTITY, p)
    else
      var r := Rungs(p, k, t + 1, d2);
      if Shr(k, t) % 2 == 1 then (ExtAdd(r.1, r.0, d2), ExtAdd(r.1, r.1, d2))
      else (ExtAdd(r.0, r.0, d2), ExtAdd(r.0, r.1, d2))
  }

  function ExtTimes(k: nat, p: Ext, d2: Fp): Ext { Rungs(p, k, 0, d2).0 }

  /** One iteration: swap, add, double, swap. */
  method GeStep(r0: GeP3, r1: GeP3, t: GeP3, bit: bool, c: EdCtx)
    requires r0.Valid() && r1.Valid() && t.Shape() && c.Valid()
    requires r0.Limbs() !! r1.Limbs() && r0.Limbs() !! t.Limbs() && r1.Limbs() !! t.Limbs()
    requires c.Limbs() !! (r0.Limbs() + r1.Limbs() + t.Limbs())
    modifies r0.Limbs(), r1.Limbs(), t.Limbs()
    ensures r0.Valid() && r1.Valid()
    ensures var a, b, d2 := old(r0.Value()), old(r1.Value()), Fe(c.d2[..]);
      (r0.Value(), r1.Value())
        == if bit then (ExtAdd(b, a, d2), ExtAdd(b, b, d2)) else (ExtAdd(a, a, d2), ExtAdd(a, b, d2))
  {
    hide Fe, Reduced, AtMost2P, MaxLimb, ExtAdd, Residue;
    GeCSwap(r0, r1, bit);
    GeAdd(t, r0, r1, c);
    GeAdd(r0, r0, r0, c);
    GeCopy(r1, t);
    GeCSwap(r0, r1, bit);
  }

  /** r = scalar * p over bits 254 to 0. */
  method GeScalarMult(r: GeP3, p: GeP3, scalar: seq<byte>, c: EdCtx)
    requires r.Shape() && p.Valid() && c.Valid() && |scalar| == 32
    modifies r.Limbs()
    ensures r.Valid()
    ensures r.Value() == ExtTimes(LE(scalar), old(p.Value()), old(Fe(c.d2[..])))
  {
    hide Fe, Reduced, AtMost2P, MaxLimb, ExtTimes, LE, Residue;
    var r0 := GeLadder(p, scalar, c);
    GeCopy(r, r0);
  }

  method GeLadder(p: GeP3, scalar: seq<byte>, c: EdCtx) returns (r0: GeP3)
    requires p.Valid() && c.Valid() && |scalar| == 32
    ensures fresh(r0.Limbs()) && r0.Valid()
    ensures r0.Value() == ExtTimes(LE(scalar), p.Value(), Fe(c.d2[..]))
  {
    hide Fe, Reduced, AtMost2P, MaxLimb, ExtTimes, LE, Residue;
    var r1 := NewCopy(p);
    r0 := NewIdentity();
    GeRun(r0, r1, scalar, c);
  }

  method NewCopy(p: GeP3) returns (r: GeP3)
    requires p.Valid()
    ensures fresh(r.Limbs()) && r.Valid() && r.Value() == p.Value()
  {
    hide Fe, Reduced, AtMost2P, Residue;
    r := new GeP3();
    GeCopy(r, p);
  }

  method NewIdentity() returns (r: GeP3)
    ensures fresh(r.Limbs()) && r.Valid() && r.Value() == IDENTITY
  {
    hide Fe, Reduced, AtMost2P, Residue;
    r := new GeP3();
    GeIdentity(r);
  }

  method GeRun(r0: GeP3, r1: GeP3, scalar: seq<byte>, c: EdCtx)
    requires r0.Valid() && r1.Valid() && c.Valid() && |scalar| == 32 && r0.Value() == IDENTITY
    requires r0.Limbs() !! r1.Limbs() && c.Limbs() !! (r0.Limbs() + r1.Limbs())
    modifies r0.Limbs(), r1.Limbs()
    ensures r0.Valid() && r0.Value() == ExtTimes(LE(scalar), old(r1.Value()), old(Fe(c.d2[..])))
  {
    hide Fe, Reduced, AtMost2P, MaxLimb, ExtAdd, Bit, Shr, LE, Residue;
    var t := new GeP3();
    ghost var k, v, d2 := LE(scalar), r1.Value(), Fe(c.d2[..]);
    var bit := 255;
    while bit > 0
      invariant 0 <= bit <= 255
      invariant r0.Valid() && r1.Valid()
      invariant (r0.Value(), r1.Value()) == Rungs(v, k, bit, d2)
    {
      bit := bit - 1;
      BitIsBit(scalar, bit);
      GeStep(r0, r1, t, Bit(scalar, bit) == 1, c);
    }
  }

  /** The ladder computes the multiple: after each bit r0 represents (k >> t) times the point
      and r1 one more. */
  lemma {:induction false} RungsMeaning(P1: Ext, p: Point, k: nat, t: nat)
    requires PIsPrime() && AdditionAssociates() && Represents(P1, p)
    requires t <= 255 && k < Pow2(255)
    ensures Represents(Rungs(P1, k, t, FAdd(D, D)).0, Times(Shr(k, t), p))
    ensures Represents(Rungs(P1, k, t, FAdd(D, D)).1, Times(Shr(k, t) + 1, p))
    decreases 255 - t
  {
    hide Represents, ExtAdd, PAdd, Pow2, Shr, AdditionAssociates, OnCurve;
    assert OnCurve(p) by { RepresentsOnCurve(P1, p); }
    if t == 255 {
      ShrEnds(k, 255);
      IdentityRepresents();
      TimesOne(p);
    } else {
      RungsMeaning(P1, p, k, t + 1);
      HalfStep(k, t);
      var m, r, d2 := Shr(k, t + 1), Rungs(P1, k, t + 1, FAdd(D, D)), FAdd(D, D);
      hide FAdd, Residue;
      var a, b := Times(m, p), Times(m + 1, p);
      TimesAdd(m, m, p);
      TimesAdd(m, m + 1, p);
      TimesAdd(m + 1, m, p);
      TimesAdd(m + 1, m + 1, p);
      ExtAddRepresents(r.0, r.0, a, a);
      ExtAddRepresents(r.0, r.1, a, b);
      ExtAddRepresents(r.1, r.0, b, a);
      ExtAddRepresents(r.1, r.1, b, b);
      assert Shr(k, t) == 2 * m || Shr(k, t) == 2 * m + 1;
    }
  }

  lemma RepresentsOnCurve(P1: Ext, p: Point)
    requires Represents(P1, p)
    ensures OnCurve(p)
  {
  }

  /** ge_scalarmult computes k p for every scalar below 2^255. */
  lemma ExtTimesRepresents(k: nat, P1: Ext, p: Point)
    requires PIsPrime() && AdditionAssociates() && Represents(P1, p) && k < Pow2(255)
    ensures Represents(ExtTimes(k, P1, FAdd(D, D)), Times(k, p))
  {
    RungsMeaning(P1, p, k, 0);
    ShrEnds(k, 255);
    hide Represents, ExtAdd, PAdd, Pow2, Shr, AdditionAssociates;
  }
}
