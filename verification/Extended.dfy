/** Extended coordinates (X : Y : Z : T) over the field: the complete addition formulas and
    what they represent. */
module Extended {
  import opened Field
  import opened PrimeField
  import opened Edwards

  datatype Ext = Ext(X: Fp, Y: Fp, Z: Fp, T: Fp)

  const IDENTITY: Ext := Ext(0, 1, 1, 0)

  /** x = X / Z, y = Y / Z and x y = T / Z, for a point of the curve. */
  ghost predicate Represents(q: Ext, p: Point) {
    && OnCurve(p) && q.Z != 0
    && q.X == FMul(p.x, q.Z) && q.Y == FMul(p.y, q.Z) && q.T == FMul(FMul(p.x, p.y), q.Z)
  }

  /** The four factors E, F, G, H of the addition formulas. */
  datatype Factors = Factors(e: Fp, f: Fp, g: Fp, h: Fp)

  function AddFactors(p: Ext, q: Ext, d2: Fp): Factors {
    var a := FMul(FSub(p.Y, p.X), FSub(q.Y, q.X));
    var b := FMul(FAdd(p.Y, p.X), FAdd(q.Y, q.X));
    var c := FMul(FMul(p.T, q.T), d2);
    var d := FAdd(FMul(p.Z, q.Z), FMul(p.Z, q.Z));
    Factors(FSub(b, a), FSub(d, c), FAdd(d, c), FAdd(b, a))
  }

  function ExtAdd(p: Ext, q: Ext, d2: Fp): Ext {
    var t := AddFactors(p, q, d2);
    Ext(FMul(t.e, t.f), FMul(t.g, t.h), FMul(t.f, t.g), FMul(t.e, t.h))
  }

  function ExtNeg(p: Ext): Ext { Ext(FNeg(p.X), p.Y, p.Z, FNeg(p.T)) }

  lemma IdentityRepresents()
    ensures Represents(IDENTITY, ZERO)
  {
    assert OnCurve(ZERO);
  }

  // ---------- what the factors are ----------

  /** A difference or sum of coordinates scales with Z. */
  lemma ScaledSums(X: int, Y: int, x: int, y: int, z: int)
    requires Eq(X, x * z) && Eq(Y, y * z)
    ensures Eq(FSub(Y, X), (y - x) * z) && Eq(FAdd(Y, X), (y + x) * z)
  {
    hide Eq, Residue;
    FSubEq(Y, y * z, X, x * z);
    assert (y - x) * z == y * z - x * z && (y + x) * z == y * z + x * z;
  }

  lemma ScaledProduct(u: int, v: int, s: int, t: int, z1: int, z2: int)
    requires Eq(u, s * z1) && Eq(v, t * z2)
    ensures Eq(FMul(u, v), (s * t) * (z1 * z2))
  {
    FMulEq(u, s * z1, v, t * z2);
    Exchange(s, z1, t, z2);
  }

  lemma CrossSums(x1: int, y1: int, x2: int, y2: int, z: int)
    ensures ((y1 + x1) * (y2 + x2)) * z - ((y1 - x1) * (y2 - x2)) * z == (2 * z) * (x1 * y2 + x2 * y1)
    ensures ((y1 + x1) * (y2 + x2)) * z + ((y1 - x1) * (y2 - x2)) * z == (2 * z) * (y1 * y2 + x1 * x2)
  {
    var a, b := (y1 + x1) * (y2 + x2), (y1 - x1) * (y2 - x2);
    assert a - b == 2 * (x1 * y2 + x2 * y1) && a + b == 2 * (y1 * y2 + x1 * x2);
    assert a * z - b * z == (a - b) * z && a * z + b * z == (a + b) * z;
  }

  /** E = c n, H = c m, F = c (1 - e), G = c (1 + e) with c = 2 Z1 Z2. */
  lemma FactorsMeaning(P1: Ext, P2: Ext, x1: int, y1: int, x2: int, y2: int, d: int, d2: Fp)
    requires Eq(P1.X, x1 * P1.Z) && Eq(P1.Y, y1 * P1.Z) && Eq(P1.T, (x1 * y1) * P1.Z)
    requires Eq(P2.X, x2 * P2.Z) && Eq(P2.Y, y2 * P2.Z) && Eq(P2.T, (x2 * y2) * P2.Z)
    requires Eq(d2, 2 * d)
    ensures var t, c, e := AddFactors(P1, P2, d2), 2 * (P1.Z as int * P2.Z as int), d * ((x1 * y1) * (x2 * y2));
      && Eq(t.e, c * (x1 * y2 + x2 * y1)) && Eq(t.h, c * (y1 * y2 + x1 * x2))
      && Eq(t.f, c * (1 - e)) && Eq(t.g, c * (1 + e))
  {
    var z1: int, z2: int := P1.Z, P2.Z;
    var z, s, e := z1 * z2, (x1 * y1) * (x2 * y2), d * ((x1 * y1) * (x2 * y2));
    hide Eq, FAdd, FSub, FMul, Residue;
    ScaledSums(P1.X, P1.Y, x1, y1, z1);
    ScaledSums(P2.X, P2.Y, x2, y2, z2);
    ScaledProduct(FSub(P1.Y, P1.X), FSub(P2.Y, P2.X), y1 - x1, y2 - x2, z1, z2);
    ScaledProduct(FAdd(P1.Y, P1.X), FAdd(P2.Y, P2.X), y1 + x1, y2 + x2, z1, z2);
    var a, b := FMul(FSub(P1.Y, P1.X), FSub(P2.Y, P2.X)), FMul(FAdd(P1.Y, P1.X), FAdd(P2.Y, P2.X));
    FSubEq(b, ((y1 + x1) * (y2 + x2)) * z, a, ((y1 - x1) * (y2 - x2)) * z);
    CrossSums(x1, y1, x2, y2, z);
    ScaledProduct(P1.T, P2.T, x1 * y1, x2 * y2, z1, z2);
    var c := FMul(FMul(P1.T, P2.T), d2);
    FMulEq(FMul(P1.T, P2.T), s * z, d2, 2 * d);
    OpsEq(z1, z2);
    FSubEq(FMul(z1, z2), z, FMul(z1, z2), z);
    var dd := FAdd(FMul(z1, z2), FMul(z1, z2));
    FSubEq(dd, z + z, c, (s * z) * (2 * d));
    OuterFactors(s, z, d, e);
  }

  lemma OuterFactors(s: int, z: int, d: int, e: int)
    requires e == d * s
    ensures z + z - (s * z) * (2 * d) == (2 * z) * (1 - e) && z + z + (s * z) * (2 * d) == (2 * z) * (1 + e)
  {
    assert (s * z) * (2 * d) == (2 * z) * (d * s);
    assert (2 * z) * (1 - e) == 2 * z - (2 * z) * e;
    assert (2 * z) * (1 + e) == 2 * z + (2 * z) * e;
  }

  // ---------- what the product coordinates are ----------

  /** From E = c n, H = c m, F = c (1 - e), G = c (1 + e) and r the quotient point:
      E F = r.x (F G), G H = r.y (F G), E H = (r.x r.y)(F G). */
  lemma QuotientCoordinates(E: int, F: int, G: int, H: int, c: int, n: int, m: int, p: int, q: int, x: int, y: int)
    requires Eq(E, c * n) && Eq(H, c * m) && Eq(F, c * q) && Eq(G, c * p)
    requires Eq(x * p, n) && Eq(y * q, m)
    ensures Eq(E * F, x * (F * G)) && Eq(G * H, y * (F * G)) && Eq(E * H, (x * y) * (F * G))
  {
    hide Eq, Residue;
    assert Eq(E, x * G) by { ThroughScale(E, G, c, n, p, x); }
    assert Eq(H, y * F) by { ThroughScale(H, F, c, m, q, y); }
    EqRefl(F);
    EqRefl(G);
    EqOp(E, x * G, F, F);
    EqOp(H, y * F, G, G);
    EqOp(E, x * G, H, y * F);
    assert (x * G) * F == x * (F * G) && (y * F) * G == y * (F * G) && H * G == G * H;
    Exchange(x, G, y, F);
    assert G * F == F * G;
  }

  lemma ThroughScale(E: int, G: int, c: int, n: int, p: int, x: int)
    requires Eq(E, c * n) && Eq(G, c * p) && Eq(x * p, n)
    ensures Eq(E, x * G)
  {
    hide Eq, Residue;
    EqRefl(c);
    EqRefl(x);
    EqSym(x * p, n);
    EqSym(G, c * p);
    EqOp(c, c, n, x * p);
    EqOp(x, x, c * p, G);
    EqTrans(E, c * n, c * (x * p));
    assert c * (x * p) == x * (c * p);
    EqTrans(E, x * (c * p), x * G);
  }

  /** A field product that is congruent to x times z is that product. */
  lemma CoordinateIs(u: int, v: int, f: int, g: int, x: int)
    requires Eq(u * v, x * (f * g))
    ensures FMul(u, v) == FMul(x, FMul(f, g))
  {
    OpsEq(f, g);
    EqRefl(x);
    hide Eq, Residue;
    EqSym(FMul(f, g), f * g);
    EqOp(x, x, f * g, FMul(f, g));
    EqTrans(u * v, x * (f * g), x * FMul(f, g));
    EqIff(u * v, x * FMul(f, g));
  }

  /** The extended addition formulas represent the affine sum, for any two representatives of
      any two curve points, equal or not. */
  lemma ExtAddRepresents(P1: Ext, P2: Ext, p: Point, q: Point)
    requires PIsPrime() && Represents(P1, p) && Represents(P2, q)
    ensures Represents(ExtAdd(P1, P2, FAdd(D, D)), PAdd(p, q))
  {
    hide Eq, PAdd, CurveEq, ExtAdd, FMul, FAdd, Residue;
    var d2, r := FAdd(D, D), PAdd(p, q);
    AddMeaning(p, q);
    AddOnCurve(p, q);
    RepresentsEq(P1, p);
    RepresentsEq(P2, q);
    TwiceIs(D);
    ScaleNonzero(P1.Z, P2.Z);
    ExtAddInt(P1, P2, p.x, p.y, q.x, q.y, r.x, r.y, D, d2, D * ((p.x as int * p.y as int) * (q.x as int * q.y as int)));
    FMulOfProduct(r.x, r.y, ExtAdd(P1, P2, d2).Z);
  }

  lemma TwiceIs(d: int)
    ensures Eq(FAdd(d, d), 2 * d)
  {
    OpsEq(d, d);
    hide Eq, FAdd, Residue;
    assert d + d == 2 * d;
  }

  /** The addition formulas on numbers: whatever satisfies the division-free equations is what
      the four products represent. */
  lemma ExtAddInt(P1: Ext, P2: Ext, x1: int, y1: int, x2: int, y2: int, x: int, y: int, d: int, d2: Fp, e: int)
    requires PIsPrime()
    requires Eq(P1.X, x1 * P1.Z) && Eq(P1.Y, y1 * P1.Z) && Eq(P1.T, (x1 * y1) * P1.Z)
    requires Eq(P2.X, x2 * P2.Z) && Eq(P2.Y, y2 * P2.Z) && Eq(P2.T, (x2 * y2) * P2.Z)
    requires Eq(d2, 2 * d) && e == d * ((x1 * y1) * (x2 * y2)) && !Eq(1 + e, 0) && !Eq(1 - e, 0)
    requires Eq(x * (1 + e), x1 * y2 + x2 * y1) && Eq(y * (1 - e), y1 * y2 + x1 * x2)
    requires !Eq(2 * (P1.Z as int * P2.Z as int), 0)
    ensures var s := ExtAdd(P1, P2, d2);
      s.Z != 0 && s.X == FMul(x, s.Z) && s.Y == FMul(y, s.Z) && s.T == FMul(x * y, s.Z)
  {
    hide Eq, FMul, FAdd, FSub, AddFactors, Residue;
    var t, c := AddFactors(P1, P2, d2), 2 * (P1.Z as int * P2.Z as int);
    FactorsMeaning(P1, P2, x1, y1, x2, y2, d, d2);
    QuotientCoordinates(t.e, t.f, t.g, t.h, c, x1 * y2 + x2 * y1, y1 * y2 + x1 * x2, 1 + e, 1 - e, x, y);
    CoordinateIs(t.e, t.f, t.f, t.g, x);
    CoordinateIs(t.g, t.h, t.f, t.g, y);
    CoordinateIs(t.e, t.h, t.f, t.g, x * y);
    ProductOfScaled(t.f, t.g, c, 1 - e, 1 + e);
  }

  lemma RepresentsEq(P1: Ext, p: Point)
    requires Represents(P1, p)
    ensures Eq(P1.X, p.x as int * P1.Z as int) && Eq(P1.Y, p.y as int * P1.Z as int)
    ensures Eq(P1.T, (p.x as int * p.y as int) * P1.Z as int)
  {
    OpsEq(p.x, P1.Z);
    OpsEq(p.y, P1.Z);
    OpsEq(p.x, p.y);
    EqRefl(P1.Z);
    hide Eq, FMul, OnCurve, Residue;
    FMulEq(FMul(p.x, p.y), p.x as int * p.y as int, P1.Z, P1.Z);
  }

  lemma ScaleNonzero(z1: Fp, z2: Fp)
    requires PIsPrime() && z1 != 0 && z2 != 0
    ensures !Eq(2 * (z1 as int * z2 as int), 0)
  {
    NotZero(z1);
    NotZero(z2);
    OneIsNotZero();
    hide Eq, Residue;
    ProductNonzero(z1, z2);
    ProductNonzero(2, z1 as int * z2 as int);
  }

  lemma FMulOfProduct(x: int, y: int, z: int)
    ensures FMul(x * y, z) == FMul(FMul(x, y), z)
  {
    OpsEq(x, y);
    EqRefl(z);
    OpsRespect(FMul(x, y), x * y, z, z);
  }

  lemma ProductOfScaled(f: Fp, g: Fp, c: int, q: int, p: int)
    requires PIsPrime() && Eq(f, c * q) && Eq(g, c * p) && !Eq(c, 0) && !Eq(q, 0) && !Eq(p, 0)
    ensures FMul(f, g) != 0
  {
    ProductNonzero(c, q);
    ProductNonzero(c, p);
    ProductNonzero(c * q, c * p);
    FMulEq(f, c * q, g, c * p);
    hide FMul, Residue;
    if FMul(f, g) == 0 {
      EqSym(FMul(f, g), (c * q) * (c * p));
      assert false;
    }
  }

  /** The equations that make extended coordinates a curve point: X Y = Z T and
      -X^2 + Y^2 = Z^2 + d T^2.  With ExtAddRepresents, ge_add preserves them. */
  lemma RepresentsInvariant(q: Ext, p: Point)
    requires Represents(q, p)
    ensures FMul(q.X, q.Y) == FMul(q.Z, q.T)
    ensures FSub(FMul(q.Y, q.Y), FMul(q.X, q.X)) == FAdd(FMul(q.Z, q.Z), FMul(D, FMul(q.T, q.T)))
  {
    hide Eq, CurveEq, FMul, FSub, FAdd, Residue;
    RepresentsEq(q, p);
    InvariantInt(q, p.x, p.y, q.Z, D);
  }

  lemma InvariantInt(q: Ext, x: int, y: int, z: int, d: int)
    requires z == q.Z && CurveEq(x, y, d)
    requires Eq(q.X, x * z) && Eq(q.Y, y * z) && Eq(q.T, (x * y) * z)
    ensures FMul(q.X, q.Y) == FMul(q.Z, q.T)
    ensures FSub(FMul(q.Y, q.Y), FMul(q.X, q.X)) == FAdd(FMul(q.Z, q.Z), FMul(d, FMul(q.T, q.T)))
  {
    hide *;
    var u, v, w := x * z, y * z, (x * y) * z;
    EqRefl(z);
    EqRefl(d);
    FMulEq(q.X, u, q.Y, v);
    FMulEq(q.X, u, q.X, u);
    FMulEq(q.Y, v, q.Y, v);
    FMulEq(q.T, w, q.T, w);
    FMulEq(z, z, q.T, w);
    FMulEq(z, z, z, z);
    FMulEq(d, d, FMul(q.T, q.T), w * w);
    FSubEq(FMul(q.Y, q.Y), v * v, FMul(q.X, q.X), u * u);
    FSubEq(FMul(q.Z, q.Z), z * z, FMul(d, FMul(q.T, q.T)), d * (w * w));
    CrossScale(x, y, z);
    EqRefl(u * v);
    SameField(FMul(q.X, q.Y), FMul(q.Z, q.T), u * v, z * w);
    HomogeneousCurve(x, y, z, d);
    SameField(FSub(FMul(q.Y, q.Y), FMul(q.X, q.X)), FAdd(FMul(q.Z, q.Z), FMul(d, FMul(q.T, q.T))),
      v * v - u * u, z * z + d * (w * w));
  }

  lemma CrossScale(x: int, y: int, z: int)
    ensures (x * z) * (y * z) == z * ((x * y) * z)
  {
    Exchange(x, z, y, z);
  }

  lemma SameField(a: Fp, b: Fp, x: int, y: int)
    requires Eq(a, x) && Eq(b, y) && Eq(x, y)
    ensures a == b
  {
    hide Eq, Residue;
    EqSym(b, y);
    EqTrans(a, x, y);
    EqTrans(a, y, b);
    EqCanonical(a, b);
  }

  lemma HomogeneousCurve(x: int, y: int, z: int, d: int)
    requires CurveEq(x, y, d)
    ensures Eq((y * z) * (y * z) - (x * z) * (x * z), z * z + d * (((x * y) * z) * ((x * y) * z)))
  {
    hide Eq, Residue;
    HomogeneousSquares(x, y, z);
    HomogeneousTerms(x * x, y * y, z * z, d);
  }

  lemma HomogeneousSquares(x: int, y: int, z: int)
    ensures (x * z) * (x * z) == (x * x) * (z * z) && (y * z) * (y * z) == (y * y) * (z * z)
    ensures ((x * y) * z) * ((x * y) * z) == ((x * x) * (y * y)) * (z * z)
  {
    SquareProduct(x, z);
    SquareProduct(y, z);
    SquareProduct(x, y);
    SquareProduct(x * y, z);
  }

  lemma HomogeneousTerms(a: int, b: int, c: int, d: int)
    requires Eq(b - a, 1 + d * a * b)
    ensures Eq(b * c - a * c, c + d * ((a * b) * c))
  {
    hide *;
    ScaledCurve(a, b, c, d);
    Certificate1(b * c - a * c, c + d * ((a * b) * c), c, b - a, 1 + d * a * b);
  }

  lemma ScaledCurve(a: int, b: int, c: int, d: int)
    ensures (b * c - a * c) - (c + d * ((a * b) * c)) == c * (b - a - (1 + d * a * b))
  {
    Group(d, a, b);
    assert c * (d * (a * b)) == d * ((a * b) * c);
  }

  lemma NegRepresents(q: Ext, p: Point)
    requires Represents(q, p)
    ensures Represents(ExtNeg(q), PNeg(p))
  {
    NegOnCurve(p);
    hide OnCurve;
    FNegMul(p.x, q.Z);
    FNegMul(p.x, p.y);
    FNegMul(FMul(p.x, p.y), q.Z);
  }

  lemma FNegMul(x: int, z: int)
    ensures FMul(FNeg(x), z) == FNeg(FMul(x, z))
  {
    hide *;
    FNegEq(x);
    FNegEq(FMul(x, z));
    OpsEq(x, z);
    EqRefl(z);
    EqRefl(0);
    FMulEq(FNeg(x), 0 - x, z, z);
    EqOp(0, 0, FMul(x, z), x * z);
    NegMul(x, z);
    EqTrans(FNeg(FMul(x, z)), 0 - FMul(x, z), 0 - x * z);
    EqRefl(0 - x * z);
    SameField(FMul(FNeg(x), z), FNeg(FMul(x, z)), 0 - x * z, 0 - x * z);
  }

  lemma FNegEq(x: int)
    ensures Eq(FNeg(x), 0 - x)
  {
    OpsEq(0, x);
  }

  lemma NegMul(x: int, z: int)
    ensures (0 - x) * z == 0 - x * z
  {
  }
}
