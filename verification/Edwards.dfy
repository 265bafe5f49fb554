/** The twisted Edwards curve -x^2 + y^2 = 1 + d x^2 y^2 of RFC 8032, section 5.1: the affine
    addition law, its completeness and closure, and scalar multiples.  Associativity of the
    addition is the one group law taken as a hypothesis. */
module Edwards {
  import opened Arithmetic
  import opened Field
  import opened PrimeField
  import Fermat

  datatype Point = Point(x: Fp, y: Fp)

  const ZERO: Point := Point(0, 1)

  ghost predicate CurveEq(x: int, y: int, d: int) {
    Eq(y * y - x * x, 1 + d * (x * x) * (y * y))
  }

  ghost predicate Curve(x: int, y: int) { CurveEq(x, y, D) }

  ghost predicate OnCurve(p: Point) { Curve(p.x, p.y) }

  /** d x1 x2 y1 y2 */
  function Eps(p: Point, q: Point): Fp {
    FMul(FMul(D, FMul(p.x, q.x)), FMul(p.y, q.y))
  }

  /** The addition law of RFC 8032, section 5.1.4, on affine coordinates. */
  function PAdd(p: Point, q: Point): Point {
    var e := Eps(p, q);
    Point(FMul(FAdd(FMul(p.x, q.y), FMul(q.x, p.y)), FInv(FAdd(1, e))),
          FMul(FAdd(FMul(p.y, q.y), FMul(p.x, q.x)), FInv(FSub(1, e))))
  }

  function PNeg(p: Point): Point { Point(FNeg(p.x), p.y) }

  /** n times p, by repeated addition. */
  function Times(n: nat, p: Point): Point {
    if n == 0 then ZERO else PAdd(Times(n - 1, p), p)
  }

  // ---------- congruence certificates ----------

  /** l - r is a combination of differences of congruent numbers. */
  lemma Certificate1(l: int, r: int, c: int, a: int, b: int)
    requires Eq(a, b) && l - r == c * (a - b)
    ensures Eq(l, r)
  {
    EqRefl(c);
    EqOp(c, c, a, b);
    assert c * a - c * b == c * (a - b);
    EqDifference(l, r, c * a, c * b);
  }

  lemma EqDifference(l: int, r: int, a: int, b: int)
    requires Eq(a, b) && l - r == a - b
    ensures Eq(l, r)
  {
    hide Eq, Residue;
    EqShift(a, b);
    EqShift(l, r);
  }

  lemma Certificate2(l: int, r: int, c1: int, a1: int, b1: int, c2: int, a2: int, b2: int)
    requires Eq(a1, b1) && Eq(a2, b2) && l - r == c1 * (a1 - b1) + c2 * (a2 - b2)
    ensures Eq(l, r)
  {
    var m := r + c2 * (a2 - b2);
    Certificate1(l, m, c1, a1, b1);
    Certificate1(m, r, c2, a2, b2);
    EqTrans(l, m, r);
  }

  lemma Certificate4(l: int, r: int, c1: int, a1: int, b1: int, c2: int, a2: int, b2: int,
                     c3: int, a3: int, b3: int, c4: int, a4: int, b4: int)
    requires Eq(a1, b1) && Eq(a2, b2) && Eq(a3, b3) && Eq(a4, b4)
    requires l - r == c1 * (a1 - b1) + c2 * (a2 - b2) + c3 * (a3 - b3) + c4 * (a4 - b4)
    ensures Eq(l, r)
  {
    var m := r + (c3 * (a3 - b3) + c4 * (a4 - b4));
    Certificate2(l, m, c1, a1, b1, c2, a2, b2);
    Certificate2(m, r, c3, a3, b3, c4, a4, b4);
    EqTrans(l, m, r);
  }

  // ---------- completeness ----------

  lemma SquareSum(t: int, u: int)
    ensures (t + u) * (t + u) == t * t + 2 * (t * u) + u * u
  {
  }

  lemma SquareProduct(i: int, x: int)
    ensures (i * x) * (i * x) == (i * i) * (x * x)
  {
  }

  lemma Exchange(x: int, y: int, u: int, v: int)
    ensures (x * y) * (u * v) == (x * u) * (y * v)
  {
  }

  /** d x1 x2 y1 y2, grouped by point, and its square. */
  lemma EpsByPoint(x1: int, y1: int, x2: int, y2: int, d: int)
    ensures d * (x1 * x2) * (y1 * y2) == d * ((x1 * y1) * (x2 * y2))
    ensures (x1 * y1) * (x1 * y1) == (x1 * x1) * (y1 * y1)
    ensures (x2 * y2) * (x2 * y2) == (x2 * x2) * (y2 * y2)
  {
    Exchange(x1, x2, y1, y2);
    SquareProduct(x1, y1);
    SquareProduct(x2, y2);
  }

  lemma CollapseCross(i: int, d: int, m: int, n: int)
    ensures (i * (d * (m * n))) * m == (d * (m * m)) * (i * n)
  {
  }

  lemma LeftSquare(i: int, x: int, y: int, e: int)
    ensures (i * x + e * y) * (i * x + e * y)
      == (i * i) * (x * x) + 2 * ((i * e) * (x * y)) + (e * e) * (y * y)
  {
  }

  lemma RightSquare(i: int, m: int, x: int, y: int, d: int)
    ensures d * ((m * (i * x + y)) * (m * (i * x + y)))
      == (d * (m * m)) * ((i * i) * (x * x) + y * y) + 2 * ((d * (m * m)) * (i * (x * y)))
  {
    SquareProduct(m, i * x + y);
    SquareSum(i * x, y);
    SquareProduct(i, x);
    MulAssoc(i, x, y);
    Spread(d, m * m, (i * i) * (x * x), i * (x * y), y * y);
  }

  lemma Spread(d: int, k: int, a: int, b: int, c: int)
    ensures d * (k * (a + 2 * b + c)) == (d * k) * (a + c) + 2 * ((d * k) * b)
  {
  }

  /** If (d x1 x2 y1 y2)^2 were 1, then (i x1 + e y1)^2 = d (x1 y1 (i x2 + y2))^2. */
  lemma SquareIdentity(x1: int, y1: int, x2: int, y2: int, e: int, i: int, d: int)
    requires CurveEq(x1, y1, d) && CurveEq(x2, y2, d) && Eq(i * i, -1)
    requires e == d * ((x1 * y1) * (x2 * y2)) && Eq(e * e, 1)
    ensures var s, r := i * x1 + e * y1, (x1 * y1) * (i * x2 + y2); Eq(s * s, d * (r * r))
  {
    var a, b, c, f, m, n := x1 * x1, y1 * y1, x2 * x2, y2 * y2, x1 * y1, x2 * y2;
    LeftSquare(i, x1, y1, e);
    RightSquare(i, m, x2, y2, d);
    CollapseCross(i, d, m, n);
    EpsByPoint(x1, y1, x2, y2, d);
    hide Eq, Residue;
    SquareCollect((i * x1 + e * y1) * (i * x1 + e * y1), d * ((m * (i * x2 + y2)) * (m * (i * x2 + y2))),
      i * i, e * e, a, b, c, f, m, n, d);
  }

  lemma SquareCollect(l: int, r: int, ii: int, ee: int, a: int, b: int, c: int, f: int, m: int, n: int, d: int)
    requires m * m == a * b && n * n == c * f
    requires l - r == ii * a + ee * b - (d * (m * m)) * (ii * c + f)
    requires ee == (d * (m * n)) * (d * (m * n))
    requires Eq(ii, -1) && Eq(ee, 1) && Eq(b - a, 1 + d * a * b) && Eq(f - c, 1 + d * c * f)
    ensures Eq(l, r)
  {
    hide Eq, Residue;
    var g, w := d * (m * m), d * (n * n);
    assert d * a * b == g && d * c * f == w by { Group(d, a, b); Group(d, c, f); }
    assert ee == g * w by { GroupSquare(d, m, n); }
    CollectTerms(ii, ee, a, b, c, f, g, w);
    Certificate4(l, r, a - g * c, ii, -1, b - 1, ee, 1, 1, b - a, 1 + g, -g, f - c, 1 + w);
  }

  lemma Group(d: int, a: int, b: int)
    ensures d * a * b == d * (a * b)
  {
  }

  lemma GroupSquare(d: int, m: int, n: int)
    ensures (d * (m * n)) * (d * (m * n)) == (d * (m * m)) * (d * (n * n))
  {
  }

  lemma CollectTerms(ii: int, ee: int, a: int, b: int, c: int, f: int, g: int, w: int)
    requires ee == g * w
    ensures ii * a + ee * b - g * (ii * c + f)
      == (a - g * c) * (ii + 1) + (b - 1) * (ee - 1) + (b - a - (1 + g)) + (-g) * (f - c - (1 + w))
  {
    assert g * (ii * c + f) == g * (ii * c) + g * f;
    assert (a - g * c) * (ii + 1) == ii * a + a - g * (ii * c) - g * c;
    assert (b - 1) * (ee - 1) == ee * b - ee - b + 1;
    assert (-g) * (f - c - (1 + w)) == -(g * f) + g * c + g + g * w;
  }

  lemma ZeroTimes(a: int, c: int)
    requires Eq(a, 0)
    ensures Eq(a * c, 0) && Eq(c * a, 0)
  {
    EqRefl(c);
    EqOp(a, 0, c, c);
  }

  lemma FactorsNonzero(m: int, x2: int, y2: int, e: int, d: int)
    requires e == d * (m * (x2 * y2)) && Eq(e * e, 1)
    ensures !Eq(m, 0) && !Eq(y2, 0)
  {
    var u, v := d * (x2 * y2), d * (m * x2);
    assert e == m * u && e == y2 * v;
    if Eq(m, 0) || Eq(y2, 0) {
      assert Eq(e, 0) by {
        if Eq(m, 0) { ZeroTimes(m, u); } else { ZeroTimes(y2, v); }
      }
      hide Eq, Residue;
      ZeroTimes(e, e);
      EqSym(e * e, 1);
      EqTrans(1, e * e, 0);
      OneIsNotZero();
      assert false;
    }
  }

  lemma OneIsNotZero()
    ensures !Eq(1, 0) && !Eq(2, 0)
  {
  }

  lemma OppositeSigns(j: int, y: int)
    requires PIsPrime() && Eq(j + y, 0) && !Eq(y, 0)
    ensures !Eq(j + -y, 0)
  {
    OneIsNotZero();
    if Eq(j + -y, 0) {
      EqOp(j + y, 0, j + -y, 0);
      assert (j + y) - (j + -y) == 2 * y;
      ProductNonzero(2, y);
      assert false;
    }
  }

  /** s^2 = d r^2 with r nonzero makes d the square of s / r. */
  lemma SquareContradiction(s: int, r: int, d: int) returns (t: int)
    requires PIsPrime() && Eq(s * s, d * (r * r)) && !Eq(r, 0)
    ensures Eq(t * t, d)
  {
    hide Cong, Eq, Residue;
    EqCong(r, 0);
    var v := Fermat.InverseExists(r, P);
    EqCong(r * v, 1);
    t := SquareQuotient(s, r, v, d);
  }

  lemma SquareQuotient(s: int, r: int, v: int, d: int) returns (t: int)
    requires Eq(s * s, d * (r * r)) && Eq(r * v, 1)
    ensures Eq(t * t, d)
  {
    hide *;
    t := s * v;
    EqOp(r * v, 1, r * v, 1);
    EqRefl(v * v);
    EqRefl(d);
    EqOp(s * s, d * (r * r), v * v, v * v);
    Exchange(s, s, v, v);
    Group(d, r * r, v * v);
    Exchange(r, r, v, v);
    EqOp(d, d, (r * v) * (r * v), 1);
    EqTrans(t * t, d * ((r * v) * (r * v)), d);
  }

  /** The denominators of the addition law never vanish on the curve: otherwise d would be a
      square. */
  lemma Complete(x1: int, y1: int, x2: int, y2: int)
    requires PIsPrime() && Curve(x1, y1) && Curve(x2, y2)
    ensures var e := D * ((x1 * y1) * (x2 * y2)); !Eq(e * e, 1)
  {
    hide Eq, CurveEq, FMul, Residue;
    var e := D * ((x1 * y1) * (x2 * y2));
    if Eq(e * e, 1) {
      CurveConstant();
      RootOfMinusOne(I);
      var t := RootOfD(x1, y1, x2, y2, e, I, D);
      DIsNonresidue(t);
      assert false;
    }
  }

  lemma RootOfMinusOne(i: Fp)
    requires FMul(i, i) == P - 1
    ensures Eq(i * i, -1)
  {
    hide Eq, FMul, Residue;
    EqOfMul(i, i);
    EqIntro(P - 1, -1, 1);
    EqSym(FMul(i, i), i as int * i as int);
    EqTrans(i as int * i as int, P - 1, -1);
  }

  lemma RootOfD(x1: int, y1: int, x2: int, y2: int, e: int, i: int, d: int) returns (t: int)
    requires PIsPrime() && CurveEq(x1, y1, d) && CurveEq(x2, y2, d) && Eq(i * i, -1)
    requires e == d * ((x1 * y1) * (x2 * y2)) && Eq(e * e, 1)
    ensures Eq(t * t, d)
  {
    var m, j := x1 * y1, i * x2;
    FactorsNonzero(m, x2, y2, e, d);
    if !Eq(j + y2, 0) {
      SquareIdentity(x1, y1, x2, y2, e, i, d);
      ProductNonzero(m, j + y2);
      t := SquareContradiction(i * x1 + e * y1, m * (j + y2), d);
    } else {
      OppositeSigns(j, y2);
      NegateY(m, x2, y2, d);
      SquareIdentity(x1, y1, x2, -y2, -e, i, d);
      ProductNonzero(m, j + -y2);
      t := SquareContradiction(i * x1 + (-e) * y1, m * (j + -y2), d);
    }
  }

  lemma NegateY(m: int, x: int, y: int, d: int)
    ensures (-y) * (-y) == y * y
    ensures d * (m * (x * (-y))) == -(d * (m * (x * y)))
    ensures (-(d * (m * (x * y)))) * (-(d * (m * (x * y)))) == (d * (m * (x * y))) * (d * (m * (x * y)))
  {
    assert x * (-y) == -(x * y);
    assert m * (-(x * y)) == -(m * (x * y));
  }

  // ---------- the sum, without division ----------

  lemma FMulEq(a: int, a': int, b: int, b': int)
    requires Eq(a, a') && Eq(b, b')
    ensures Eq(FMul(a, b), a' * b')
  {
    OpsEq(a, b);
    EqOp(a, a', b, b');
    hide Eq, FMul, Residue;
    EqTrans(FMul(a, b), a * b, a' * b');
  }

  lemma FSubEq(a: int, a': int, b: int, b': int)
    requires Eq(a, a') && Eq(b, b')
    ensures Eq(FSub(a, b), a' - b') && Eq(FAdd(a, b), a' + b')
  {
    OpsEq(a, b);
    EqOp(a, a', b, b');
    hide Eq, FSub, FAdd, Residue;
    EqTrans(FSub(a, b), a - b, a' - b');
    EqTrans(FAdd(a, b), a + b, a' + b');
  }

  /** The value of Eps. */
  lemma EpsScaled(x1: int, y1: int, x2: int, y2: int, d: int)
    ensures Eq(FMul(FMul(d, FMul(x1, x2)), FMul(y1, y2)), d * ((x1 * y1) * (x2 * y2)))
  {
    hide *;
    OpsEq(x1, x2);
    OpsEq(y1, y2);
    EqRefl(d);
    var s, t := x1 * x2, y1 * y2;
    FMulEq(d, d, FMul(x1, x2), s);
    FMulEq(FMul(d, FMul(x1, x2)), d * s, FMul(y1, y2), t);
    MulAssoc(d, s, t);
    Exchange(x1, x2, y1, y2);
  }

  /** A quotient n / g in the field, multiplied back. */
  lemma QuotientMeaning(n: int, n': int, g: Fp, g': int)
    requires PIsPrime() && Eq(n, n') && Eq(g, g') && g != 0
    ensures Eq(FMul(n, FInv(g)) * g', n')
  {
    var v: int := FInv(g);
    InverseLaw(g);
    OpsEq(g, v);
    OpsEq(n, v);
    hide Eq, FMul, FInv, Residue;
    EqSym(FMul(g, v), g * v);
    QuotientBack(n, n', g, g', v, FMul(n, v));
  }

  lemma QuotientBack(n: int, n': int, g: int, g': int, v: int, q: int)
    requires Eq(n, n') && Eq(g, g') && Eq(g * v, 1) && Eq(q, n * v)
    ensures Eq(q * g', n')
  {
    hide *;
    EqSym(g, g');
    EqOp(q, n * v, g', g);
    EqOp(n, n', g * v, 1);
    MulShuffle(n, v, g);
    EqTrans(q * g', (n * v) * g, n' * 1);
  }

  lemma MulShuffle(n: int, v: int, g: int)
    ensures (n * v) * g == n * (g * v)
  {
  }

  lemma SumOfProducts(a: int, b: int, c: int, f: int)
    ensures Eq(FAdd(FMul(a, b), FMul(c, f)), a * b + c * f)
  {
    OpsEq(a, b);
    OpsEq(c, f);
    OpsEq(FMul(a, b), FMul(c, f));
    hide Eq, FMul, FAdd, Residue;
    EqOp(FMul(a, b), a * b, FMul(c, f), c * f);
    EqTrans(FAdd(FMul(a, b), FMul(c, f)), FMul(a, b) + FMul(c, f), a * b + c * f);
  }

  /** Both coordinates of a sum, multiplied by their denominators, which are not zero. */
  lemma AddMeaning(p: Point, q: Point)
    requires PIsPrime() && OnCurve(p) && OnCurve(q)
    ensures var r, e := PAdd(p, q), D * ((p.x * p.y) * (q.x * q.y));
      && !Eq(1 + e, 0) && !Eq(1 - e, 0)
      && Eq(r.x * (1 + e), p.x * q.y + q.x * p.y) && Eq(r.y * (1 - e), p.y * q.y + p.x * q.x)
  {
    var e, f: int := D * ((p.x * p.y) * (q.x * q.y)), Eps(p, q);
    EpsScaled(p.x, p.y, q.x, q.y, D);
    Complete(p.x, p.y, q.x, q.y);
    DenominatorsNonzero(e);
    EqRefl(1);
    OpsEq(1, f);
    SumOfProducts(p.x, q.y, q.x, p.y);
    SumOfProducts(p.y, q.y, p.x, q.x);
    Denominator(f, e);
    hide Eq, FMul, FInv, FAdd, FSub, Eps, OnCurve, Residue;
    QuotientMeaning(FAdd(FMul(p.x, q.y), FMul(q.x, p.y)), p.x * q.y + q.x * p.y, FAdd(1, f), 1 + e);
    QuotientMeaning(FAdd(FMul(p.y, q.y), FMul(p.x, q.x)), p.y * q.y + p.x * q.x, FSub(1, f), 1 - e);
  }

  lemma Denominator(f: int, e: int)
    requires Eq(f, e) && !Eq(1 + e, 0) && !Eq(1 - e, 0)
    ensures Eq(FAdd(1, f), 1 + e) && Eq(FSub(1, f), 1 - e) && FAdd(1, f) != 0 && FSub(1, f) != 0
  {
    EqRefl(1);
    EqOp(1, 1, f, e);
    OpsEq(1, f);
    EqTrans(FAdd(1, f), 1 + f, 1 + e);
    EqTrans(FSub(1, f), 1 - f, 1 - e);
    if FAdd(1, f) == 0 { EqSym(FAdd(1, f), 1 + e); assert false; }
    if FSub(1, f) == 0 { EqSym(FSub(1, f), 1 - e); assert false; }
  }

  lemma DenominatorsNonzero(e: int)
    requires !Eq(e * e, 1)
    ensures !Eq(1 + e, 0) && !Eq(1 - e, 0)
  {
    assert (1 + e) * (e - 1) == e * e - 1;
    assert (1 - e) * (-1 - e) == e * e - 1;
    if Eq(1 + e, 0) { ZeroTimes(1 + e, e - 1); EqDifference(e * e, 1, (1 + e) * (e - 1), 0); }
    if Eq(1 - e, 0) { ZeroTimes(1 - e, -1 - e); EqDifference(e * e, 1, (1 - e) * (-1 - e), 0); }
  }

  // ---------- closure ----------

  lemma SplitSums(m: int, n: int, e: int)
    ensures m * ((1 + e) * (1 + e)) - n * ((1 - e) * (1 - e)) == (m - n) * (1 + e * e) + 2 * (e * (m + n))
  {
    var k := e * e;
    assert (1 + e) * (1 + e) == 1 + 2 * e + k;
    assert (1 - e) * (1 - e) == 1 - 2 * e + k;
    assert m * (1 + 2 * e + k) == m + 2 * (e * m) + m * k;
    assert n * (1 - 2 * e + k) == n - 2 * (e * n) + n * k;
    assert (m - n) * (1 + k) == m - n + m * k - n * k;
  }

  lemma NumeratorSums(a: int, b: int, c: int, f: int, s: int)
    ensures (b * f + a * c + 2 * s) - (a * f + b * c + 2 * s) == (b - a) * (f - c)
    ensures (b * f + a * c + 2 * s) + (a * f + b * c + 2 * s) == (a + b) * (c + f) + 4 * s
  {
  }

  lemma NumeratorProduct(a: int, b: int, c: int, f: int, s: int)
    ensures (a * f + b * c + 2 * s) * (b * f + a * c + 2 * s)
      == (a * b) * (c * c + f * f) + (c * f) * (a * a + b * b) + 2 * (s * ((a + b) * (c + f))) + 4 * (s * s)
  {
    var p, q := a * f + b * c, b * f + a * c;
    assert p + q == (a + b) * (c + f);
    assert (p + 2 * s) * (q + 2 * s) == p * q + 2 * (s * (p + q)) + 4 * (s * s);
    OuterProduct(a, b, c, f);
  }

  lemma OuterProduct(a: int, b: int, c: int, f: int)
    ensures (a * f + b * c) * (b * f + a * c) == (a * b) * (c * c + f * f) + (c * f) * (a * a + b * b)
  {
    FourTerms(a * f, b * c, b * f, a * c);
    Exchange(a, f, b, f);
    Exchange(b, c, a, c);
    Exchange(a, f, a, c);
    Exchange(b, c, b, f);
    WeightedParts(a * b, c * f, a * a, b * b, c * c, f * f);
  }

  lemma FourTerms(p: int, q: int, r: int, t: int)
    ensures (p + q) * (r + t) == p * r + p * t + q * r + q * t
  {
    assert p * (r + t) == p * r + p * t && q * (r + t) == q * r + q * t;
  }

  lemma WeightedParts(u: int, w: int, a: int, b: int, c: int, f: int)
    ensures u * (c + f) + w * (a + b) == u * f + a * w + b * w + u * c
  {
  }

  /** u (c^2 + f^2) + w (a^2 + b^2) with u = d a b and w = d c f. */
  lemma WeightedSquares(a: int, b: int, c: int, f: int, u: int, w: int, k: int)
    requires u * (c * f) == k && w * (a * b) == k
    ensures u * (c * c + f * f) + w * (a * a + b * b) == u * ((f - c) * (f - c)) + w * ((b - a) * (b - a)) + 4 * k
  {
    assert c * c + f * f == (f - c) * (f - c) + 2 * (c * f);
    assert a * a + b * b == (b - a) * (b - a) + 2 * (a * b);
    var x, y, p, q := (f - c) * (f - c), (b - a) * (b - a), c * f, a * b;
    assert u * (x + 2 * p) == u * x + 2 * (u * p);
    assert w * (y + 2 * q) == w * y + 2 * (w * q);
  }

  lemma Factored(al: int, be: int, u: int, w: int)
    ensures (al * be) * (1 + u * w) - u * (be * be) - w * (al * al) == (al - u * be) * (be - w * al)
  {
    assert (al - u * be) * (be - w * al) == al * be - al * (w * al) - (u * be) * be + (u * be) * (w * al);
    assert (u * be) * (w * al) == (al * be) * (u * w);
  }

  /** m^2 (1 + e)^2 - n^2 (1 - e)^2 - d n^2 m^2 factors, in the squares a, b, c, f of the
      coordinates; s stands for x1 y1 x2 y2. */
  lemma ClosureTerms(a: int, b: int, c: int, f: int, s: int, d: int, e: int, u: int, w: int, m: int, n: int)
    requires s * s == (a * b) * (c * f) && e == d * s && u == d * (a * b) && w == d * (c * f)
    requires n == a * f + b * c + 2 * s && m == b * f + a * c + 2 * s
    ensures m * ((1 + e) * (1 + e)) - n * ((1 - e) * (1 - e)) - d * (n * m)
      == ((b - a) - u * (f - c)) * ((f - c) - w * (b - a))
  {
    SplitSums(m, n, e);
    NumeratorSums(a, b, c, f, s);
    NumeratorProduct(a, b, c, f, s);
    var k, t := d * (s * s), (a + b) * (c + f);
    ClosureScalars(a, b, c, f, s, d, e, u, w, k, t);
    WeightedSquares(a, b, c, f, u, w, k);
    Factored(b - a, f - c, u, w);
    ClosureCombine((a * b) * (c * c + f * f) + (c * f) * (a * a + b * b), s, t, d, e, k, n * m,
      u * (c * c + f * f) + w * (a * a + b * b), m + n);
  }

  lemma ClosureScalars(a: int, b: int, c: int, f: int, s: int, d: int, e: int, u: int, w: int, k: int, t: int)
    requires s * s == (a * b) * (c * f) && e == d * s && u == d * (a * b) && w == d * (c * f) && k == d * (s * s)
    ensures e * e == u * w && u * (c * f) == k && w * (a * b) == k
    ensures d * ((a * b) * (c * c + f * f) + (c * f) * (a * a + b * b)) == u * (c * c + f * f) + w * (a * a + b * b)
  {
    var p, q, x, y := a * b, c * f, c * c + f * f, a * a + b * b;
    assert (d * s) * (d * s) == (d * d) * (s * s) by { Exchange(d, s, d, s); }
    assert (d * p) * (d * q) == (d * d) * (p * q) by { Exchange(d, p, d, q); }
    Group(d, p, q);
    Group(d, q, p);
    Group(d, p, x);
    Group(d, q, y);
    assert d * (p * x + q * y) == d * (p * x) + d * (q * y);
  }

  lemma ClosureCombine(o: int, s: int, t: int, d: int, e: int, k: int, nm: int, z: int, sum: int)
    requires nm == o + 2 * (s * t) + 4 * (s * s) && d * o == z && k == d * (s * s) && e == d * s
    requires sum == t + 4 * s
    ensures 2 * (e * sum) - d * nm == 4 * k - z
  {
    assert e * (t + 4 * s) == e * t + 4 * (e * s);
    assert (d * s) * t == d * (s * t);
    assert (d * s) * s == d * (s * s);
    assert d * (o + 2 * (s * t) + 4 * (s * s)) == d * o + 2 * (d * (s * t)) + 4 * (d * (s * s));
  }

  lemma FactorsReduce(al: int, be: int, u: int, w: int)
    requires Eq(al, 1 + u) && Eq(be, 1 + w)
    ensures Eq((al - u * be) * (be - w * al), (1 - u * w) * (1 - u * w))
  {
    hide Eq, Residue;
    Certificate2(al - u * be, 1 - u * w, 1, al, 1 + u, -u, be, 1 + w);
    Certificate2(be - w * al, 1 - u * w, 1, be, 1 + w, -w, al, 1 + u);
    EqOp(al - u * be, 1 - u * w, be - w * al, 1 - u * w);
  }

  /** The numerators of a sum of curve points satisfy the cleared curve equation. */
  lemma NumeratorsOnCurve(x1: int, y1: int, x2: int, y2: int, d: int, e: int, m: int, n: int)
    requires CurveEq(x1, y1, d) && CurveEq(x2, y2, d)
    requires e == d * ((x1 * y1) * (x2 * y2)) && n == x1 * y2 + x2 * y1 && m == y1 * y2 + x1 * x2
    ensures Eq((m * m) * ((1 + e) * (1 + e)) - (n * n) * ((1 - e) * (1 - e)) - d * ((n * n) * (m * m)),
      (1 - e * e) * (1 - e * e))
  {
    var a, b, c, f, s := x1 * x1, y1 * y1, x2 * x2, y2 * y2, (x1 * y1) * (x2 * y2);
    var u, w := d * (a * b), d * (c * f);
    Group(d, a, b);
    Group(d, c, f);
    hide Eq, Residue;
    NumeratorSquare(x1, y1, x2, y2);
    assert s * s == (a * b) * (c * f) by {
      SquareProduct(x1, y1);
      SquareProduct(x2, y2);
      SquareProduct(x1 * y1, x2 * y2);
    }
    ClosureTerms(a, b, c, f, s, d, e, u, w, m * m, n * n);
    FactorsReduce(b - a, f - c, u, w);
    assert e * e == u * w by { EpsSquared(a * b, c * f, s, d); }
  }

  lemma EpsSquared(p: int, q: int, s: int, d: int)
    requires s * s == p * q
    ensures (d * s) * (d * s) == (d * p) * (d * q)
  {
    Exchange(d, s, d, s);
    Exchange(d, p, d, q);
  }

  lemma NumeratorSquare(x1: int, y1: int, x2: int, y2: int)
    ensures (x1 * y2 + x2 * y1) * (x1 * y2 + x2 * y1)
      == (x1 * x1) * (y2 * y2) + (y1 * y1) * (x2 * x2) + 2 * ((x1 * y1) * (x2 * y2))
    ensures (y1 * y2 + x1 * x2) * (y1 * y2 + x1 * x2)
      == (y1 * y1) * (y2 * y2) + (x1 * x1) * (x2 * x2) + 2 * ((x1 * y1) * (x2 * y2))
  {
    SquareSum(x1 * y2, x2 * y1);
    SquareProduct(x1, y2);
    SquareProduct(x2, y1);
    SquareSum(y1 * y2, x1 * x2);
    SquareProduct(y1, y2);
    SquareProduct(x1, x2);
    assert (x1 * y2) * (x2 * y1) == (x1 * y1) * (x2 * y2);
    assert (y1 * y2) * (x1 * x2) == (x1 * y1) * (x2 * y2);
  }

  /** Clearing denominators: if A g = n and B h = m with g h nonzero, the curve equation for
      (A, B) follows from the cleared one. */
  lemma ClearDenominators(x: int, y: int, g: int, h: int, n: int, m: int, d: int)
    requires PIsPrime() && !Eq(g, 0) && !Eq(h, 0) && Eq(x * g, n) && Eq(y * h, m)
    requires Eq((m * m) * (g * g) - (n * n) * (h * h) - d * ((n * n) * (m * m)), (g * h) * (g * h))
    ensures CurveEq(x, y, d)
  {
    ProductNonzero(g, h);
    var k := (g * h) * (g * h);
    ProductNonzero(g * h, g * h);
    hide Eq, Residue;
    var n2, m2, g2, h2 := n * n, m * m, g * g, h * h;
    EqOp(x * g, n, x * g, n);
    EqOp(y * h, m, y * h, m);
    SquareProduct(x, g);
    SquareProduct(y, h);
    SquareProduct(g, h);
    ClearedEquation(x * x, y * y, g2, h2, n2, m2, d);
    assert (y * y - x * x) - (1 + d * (x * x) * (y * y)) 
      == (y * y - x * x) - (1 + d * ((x * x) * (y * y))) by { Group(d, x * x, y * y); }
    CancelFactor(k, y * y - x * x, 1 + d * (x * x) * (y * y));
  }

  lemma ClearedEquation(a: int, b: int, g: int, h: int, n: int, m: int, d: int)
    requires Eq(a * g, n) && Eq(b * h, m) && Eq(m * g - n * h - d * (n * m), g * h)
    ensures Eq((g * h) * (b - a), (g * h) * (1 + d * a * b))
  {
    hide Eq, Residue;
    EqRefl(g);
    EqRefl(h);
    EqRefl(d);
    // (g h) b = (b h) g, (g h) a = (a g) h, (g h) d a b = d (a g)(b h)
    EqOp(b * h, m, g, g);
    EqOp(a * g, n, h, h);
    EqOp(a * g, n, b * h, m);
    EqOp(d, d, (a * g) * (b * h), n * m);
    EqOp((b * h) * g, m * g, (a * g) * h, n * h);
    EqOp((b * h) * g - (a * g) * h, m * g - n * h, d * ((a * g) * (b * h)), d * (n * m));
    EqTrans((b * h) * g - (a * g) * h - d * ((a * g) * (b * h)), m * g - n * h - d * (n * m), g * h);
    ClearedTerms(a, b, g, h, d);
    EqDifference((g * h) * (b - a), (g * h) * (1 + d * a * b),
      (b * h) * g - (a * g) * h - d * ((a * g) * (b * h)), g * h);
  }

  lemma ClearedTerms(a: int, b: int, g: int, h: int, d: int)
    ensures (g * h) * (b - a) - (g * h) * (1 + d * a * b)
      == (b * h) * g - (a * g) * h - d * ((a * g) * (b * h)) - g * h
  {
    var k := g * h;
    assert (b * h) * g == k * b && (a * g) * h == k * a;
    assert (a * g) * (b * h) == k * (a * b) by { Exchange(a, g, b, h); }
    Group(d, a, b);
    assert k * (1 + d * (a * b)) == k + d * (k * (a * b)) by { assert k * (d * (a * b)) == d * (k * (a * b)); }
    assert k * (b - a) == k * b - k * a;
  }

  /** The curve is closed under addition. */
  lemma AddOnCurve(p: Point, q: Point)
    requires PIsPrime() && OnCurve(p) && OnCurve(q)
    ensures OnCurve(PAdd(p, q))
  {
    hide Eq, PAdd, CurveEq, Residue;
    var r := PAdd(p, q);
    AddMeaning(p, q);
    SumOnCurve(p.x, p.y, q.x, q.y, r.x, r.y, D, D * ((p.x * p.y) * (q.x * q.y)));
  }

  lemma SumOnCurve(x1: int, y1: int, x2: int, y2: int, x: int, y: int, d: int, e: int)
    requires PIsPrime() && CurveEq(x1, y1, d) && CurveEq(x2, y2, d) && e == d * ((x1 * y1) * (x2 * y2))
    requires !Eq(1 + e, 0) && !Eq(1 - e, 0)
    requires Eq(x * (1 + e), x1 * y2 + x2 * y1) && Eq(y * (1 - e), y1 * y2 + x1 * x2)
    ensures CurveEq(x, y, d)
  {
    hide *;
    var n, m := x1 * y2 + x2 * y1, y1 * y2 + x1 * x2;
    NumeratorsOnCurve(x1, y1, x2, y2, d, e, m, n);
    ConjugateProduct(e);
    ClearDenominators(x, y, 1 + e, 1 - e, n, m, d);
  }

  lemma ConjugateProduct(e: int)
    ensures (1 + e) * (1 - e) == 1 - e * e
  {
  }

  // ---------- group laws ----------

  /** The division-free equations determine the sum. */
  lemma SumUnique(p: Point, q: Point, r: Point)
    requires PIsPrime() && OnCurve(p) && OnCurve(q)
    requires var e := D * ((p.x * p.y) * (q.x * q.y));
      Eq(r.x * (1 + e), p.x * q.y + q.x * p.y) && Eq(r.y * (1 - e), p.y * q.y + p.x * q.x)
    ensures r == PAdd(p, q)
  {
    var e, s := D * ((p.x * p.y) * (q.x * q.y)), PAdd(p, q);
    AddMeaning(p, q);
    hide Eq, PAdd, OnCurve, Residue;
    SameQuotient(r.x, s.x, 1 + e, p.x * q.y + q.x * p.y);
    SameQuotient(r.y, s.y, 1 - e, p.y * q.y + p.x * q.x);
  }

  lemma SameQuotient(x: Fp, y: Fp, g: int, n: int)
    requires PIsPrime() && !Eq(g, 0) && Eq(x * g, n) && Eq(y * g, n)
    ensures x == y
  {
    hide Eq, Residue;
    EqSym(y * g, n);
    EqTrans(x * g, n, y * g);
    assert x * g == g * x && y * g == g * y;
    CancelFactor(g, x, y);
    EqCanonical(x, y);
  }

  lemma AddComm(p: Point, q: Point)
    ensures PAdd(p, q) == PAdd(q, p)
  {
    FMulComm(p.x, q.x);
    FMulComm(p.y, q.y);
    FMulComm(p.x, q.y);
    FMulComm(q.x, p.y);
    hide FMul, FInv, Residue;
  }

  lemma AddZero(p: Point)
    requires PIsPrime() && OnCurve(p)
    ensures PAdd(p, ZERO) == p && PAdd(ZERO, p) == p && OnCurve(ZERO)
  {
    hide Eq, OnCurve, PAdd, Residue;
    ZeroOnCurve();
    EqRefl(p.x);
    EqRefl(p.y);
    ZeroEps(D, p.x as int * p.y as int);
    SumUnique(p, ZERO, p);
    AddComm(p, ZERO);
  }

  lemma ZeroOnCurve()
    ensures OnCurve(ZERO)
  {
  }

  lemma ZeroEps(d: int, m: int)
    ensures d * (m * (0 * 1)) == 0
  {
  }

  lemma NegMeaning(p: Point)
    ensures Eq(PNeg(p).x, -(p.x as int))
  {
    OpsEq(0, p.x);
  }

  lemma NegOnCurve(p: Point)
    requires OnCurve(p)
    ensures OnCurve(PNeg(p))
  {
    NegMeaning(p);
    NegatedPoint(p.x, p.y, PNeg(p).x, D);
  }

  lemma NegatedPoint(x: int, y: int, z: int, d: int)
    requires Eq(z, -x) && CurveEq(x, y, d)
    ensures CurveEq(z, y, d)
  {
    EqOp(z, -x, z, -x);
    hide Eq, Residue;
    assert (-x) * (-x) == x * x;
    NegatedCurve(x * x, z * z, y * y, d);
  }

  lemma NegatedCurve(a: int, c: int, b: int, d: int)
    requires Eq(c, a) && Eq(b - a, 1 + d * a * b)
    ensures Eq(b - c, 1 + d * c * b)
  {
    hide *;
    EqSym(c, a);
    NegatedTerms(a, c, b, d);
    Certificate2(b - c, 1 + d * c * b, 1 + d * b, a, c, 1, b - a, 1 + d * a * b);
  }

  lemma NegatedTerms(a: int, c: int, b: int, d: int)
    ensures (b - c) - (1 + d * c * b) == (1 + d * b) * (a - c) + 1 * ((b - a) - (1 + d * a * b))
  {
    Group(d, a, b);
    Group(d, c, b);
    assert (d * b) * (a - c) == d * (a * b) - d * (c * b);
  }

  lemma AddNeg(p: Point)
    requires PIsPrime() && OnCurve(p)
    ensures PAdd(p, PNeg(p)) == ZERO
  {
    NegOnCurve(p);
    NegMeaning(p);
    var x: int, y: int, z: int := p.x, p.y, PNeg(p).x;
    assert Eq(y * y - x * x, 1 + D * (x * x) * (y * y));
    hide Eq, OnCurve, PAdd, Residue;
    NegEquations(x, y, z, D);
    SumUnique(p, PNeg(p), ZERO);
  }

  lemma NegEquations(x: int, y: int, z: int, d: int)
    requires Eq(z, -x) && Eq(y * y - x * x, 1 + d * (x * x) * (y * y))
    ensures var e := d * ((x * y) * (z * y)); Eq(0 * (1 + e), x * y + z * y) && Eq(1 * (1 - e), y * y + x * z)
  {
    hide *;
    EqSym(z, -x);
    NegSum(x, y, z);
    Certificate1(0 * (1 + d * ((x * y) * (z * y))), x * y + z * y, y, -x, z);
    NegTerms(x, y * y, z, d);
    Exchange(x, y, z, y);
    Certificate2(1 * (1 - d * ((x * y) * (z * y))), y * y + x * z,
      -1, y * y - x * x, 1 + d * (x * x) * (y * y), d * (x * (y * y)) + x, -x, z);
  }

  lemma NegSum(x: int, y: int, z: int)
    ensures 0 - (x * y + z * y) == y * (-x - z)
  {
  }

  /** 1 - e - (b + x z) = (1 + d x^2 b) - (b - x^2) + (d x b + x)(-x - z) */
  lemma NegTerms(x: int, b: int, z: int, d: int)
    ensures 1 - d * ((x * z) * b) - (b + x * z)
      == -1 * (b - x * x - (1 + d * (x * x) * b)) + (d * (x * b) + x) * (-x - z)
  {
    Group(d, x * x, b);
    var c := d * (x * b);
    NegExpand(c, x, z);
    DistributeLast(d, x, b, x);
    DistributeLast(d, x, b, z);
  }

  lemma NegExpand(c: int, x: int, z: int)
    ensures (c + x) * (-x - z) == -(c * x) - c * z - x * x - x * z
  {
    assert c * (-x - z) == -(c * x) - c * z;
  }

  lemma DistributeLast(d: int, x: int, b: int, z: int)
    ensures (d * (x * b)) * z == d * ((x * z) * b)
  {
    MulAssoc(d, x * b, z);
    assert (x * b) * z == (x * z) * b;
  }

  /** The hypothesis that the addition law is associative on the curve. */
  ghost predicate AdditionAssociates() {
    forall p, q, r :: OnCurve(p) && OnCurve(q) && OnCurve(r) ==> PAdd(PAdd(p, q), r) == PAdd(p, PAdd(q, r))
  }

  lemma Associate(p: Point, q: Point, r: Point)
    requires AdditionAssociates() && OnCurve(p) && OnCurve(q) && OnCurve(r)
    ensures PAdd(PAdd(p, q), r) == PAdd(p, PAdd(q, r))
  {
  }

  /** (q + c) - q = c */
  lemma CancelPoint(q: Point, c: Point)
    requires PIsPrime() && AdditionAssociates() && OnCurve(q) && OnCurve(c)
    ensures PAdd(PAdd(q, c), PNeg(q)) == c
  {
    hide OnCurve, PAdd, PNeg, AdditionAssociates;
    NegOnCurve(q);
    AddComm(q, c);
    Associate(c, q, PNeg(q));
    AddNeg(q);
    AddZero(c);
  }

  lemma TimesOne(p: Point)
    requires PIsPrime() && OnCurve(p)
    ensures Times(1, p) == p && Times(0, p) == ZERO
  {
    hide OnCurve, PAdd;
    assert Times(1, p) == PAdd(Times(0, p), p);
    AddZero(p);
  }

  lemma {:induction false} TimesOnCurve(n: nat, p: Point)
    requires PIsPrime() && OnCurve(p)
    ensures OnCurve(Times(n, p))
  {
    hide OnCurve, PAdd;
    if n == 0 {
      AddZero(p);
    } else {
      TimesOnCurve(n - 1, p);
      AddOnCurve(Times(n - 1, p), p);
    }
  }

  lemma {:induction false} TimesAdd(m: nat, n: nat, p: Point)
    requires PIsPrime() && AdditionAssociates() && OnCurve(p)
    ensures Times(m + n, p) == PAdd(Times(m, p), Times(n, p))
  {
    hide OnCurve, PAdd, AdditionAssociates;
    TimesOnCurve(m, p);
    if n == 0 {
      AddZero(Times(m, p));
    } else {
      TimesAdd(m, n - 1, p);
      TimesOnCurve(n - 1, p);
      Associate(Times(m, p), Times(n - 1, p), p);
    }
  }

  lemma {:induction false} TimesMul(m: nat, n: nat, k: nat, p: Point)
    requires PIsPrime() && AdditionAssociates() && OnCurve(p) && k == m * n
    ensures Times(k, p) == Times(m, Times(n, p))
  {
    hide OnCurve, PAdd, AdditionAssociates, PIsPrime;
    TimesOnCurve(n, p);
    if m == 0 {
    } else {
      MulLe(1, m, n);
      assert k - n == (m - 1) * n;
      TimesMul(m - 1, n, k - n, p);
      TimesAdd(k - n, n, p);
    }
  }

  lemma {:induction false} TimesZero(n: nat)
    requires PIsPrime()
    ensures Times(n, ZERO) == ZERO
  {
    hide PAdd;
    if n > 0 {
      TimesZero(n - 1);
      assert OnCurve(ZERO);
      hide OnCurve;
      AddZero(ZERO);
    }
  }

  /** Scalars act modulo the order of the point. */
  lemma TimesMod(n: nat, order: nat, p: Point)
    requires PIsPrime() && AdditionAssociates() && OnCurve(p)
    requires 0 < order && Times(order, p) == ZERO
    ensures Times(n % order, p) == Times(n, p)
  {
    hide OnCurve, PAdd, AdditionAssociates;
    var q, r := n / order, n % order;
    DivMod(n, order);
    TimesAdd(n - r, r, p);
    TimesMul(q, order, n - r, p);
    TimesZero(q);
    TimesOnCurve(r, p);
    AddZero(Times(r, p));
  }

  // ---------- the base point ----------

  const BX: Fp := (PValue(); 0x216936d3_cd6e53fe_c0a4e231_fdd6dc5c_692cc760_9525a7b2_c9562d60_8f25d51a)
  const BY: Fp := (PValue(); 0x66666666_66666666_66666666_66666666_66666666_66666666_66666666_66666658)

  /** The base point of RFC 8032, section 5.1. */
  const B: Point := Point(BX, BY)

  lemma BaseOnCurve()
    requires PIsPrime()
    ensures OnCurve(B)
  {
    DValue();
    hide CurveEq, Residue, D;
    BaseCheck();
  }

  lemma BaseCheck()
    ensures CurveEq(BX, BY, D_VALUE)
  {
    hide CurveEq, Residue, D;
    PValue();
    CurveCheck(BX, BY, D_VALUE);
  }

  lemma CurveCheck(x: int, y: int, d: int)
    requires (y * y - x * x) % P == (1 + d * (x * x) * (y * y)) % P
    ensures CurveEq(x, y, d)
  {
    hide Eq;
    EqIff(y * y - x * x, 1 + d * (x * x) * (y * y));
  }
}
