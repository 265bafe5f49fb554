/** What the X25519 ladder computes on the curve.  A point of the Edwards curve with coordinate y
    has the Montgomery coordinate u = (1 + y) / (1 - y) (RFC 7748, section 4.1), and the ladder
    takes u(p) to u(k p); so two parties derive the same secret. */
module Montgomery {
  import opened Arithmetic
  import opened Bytes
  import opened Field
  import opened PrimeField
  import opened Edwards
  import opened X25519
  import Fe25519
  import FeBytes

  /** The u-coordinate, 0 for the neutral element, where the source's inverse is 0. */
  function U(p: Point): Fp { FMul(FAdd(1, p.y), FInv(FSub(1, p.y))) }

  /** x : z is the projective u-coordinate of a point with coordinate y. */
  ghost predicate Stands(x: int, z: int, y: int) {
    !Eq(x + z, 0) && Eq(x - z, y * (x + z))
  }

  // ---------- small facts about congruence ----------

  lemma TwoNonzero()
    ensures !Eq(2, 0) && !Eq(1, 0) && !Eq(4, 0)
  {
    PValue();
    hide P;
  }

  lemma NonzeroProduct(a: int, b: int, c: int)
    requires PIsPrime() && Eq(a, b * c) && !Eq(b, 0) && !Eq(c, 0)
    ensures !Eq(a, 0)
  {
    hide *;
    ProductNonzero(b, c);
    if Eq(a, 0) {
      EqSym(a, b * c);
      EqTrans(b * c, a, 0);
      assert false;
    }
  }

  lemma SquareZero(a: int)
    requires PIsPrime() && Eq(a * a, 0)
    ensures Eq(a, 0)
  {
    hide *;
    if !Eq(a, 0) { ProductNonzero(a, a); }
  }

  lemma StandsEq(x: int, x': int, z: int, z': int, y: int)
    requires Eq(x, x') && Eq(z, z') && Stands(x', z', y)
    ensures Stands(x, z, y)
  {
    hide Eq, Residue;
    EqOp(x, x', z, z');
    EqRefl(y);
    EqOp(y, y, x + z, x' + z');
    EqSym(y * (x + z), y * (x' + z'));
    EqTrans(x - z, x' - z', y * (x' + z'));
    EqTrans(x - z, y * (x' + z'), y * (x + z));
    if Eq(x + z, 0) {
      EqSym(x + z, x' + z');
      EqTrans(x' + z', x + z, 0);
      assert false;
    }
  }

  // ---------- the sum and the difference of two curve points ----------

  lemma CurveSolved(a: int, b: int, d: int)
    requires Eq(b - a, 1 + d * a * b)
    ensures Eq(a * (1 + d * b), b - 1)
  {
    hide *;
    Group(d, a, b);
    SolvedTerms(a, b, d);
    Certificate1(a * (1 + d * b), b - 1, -1, b - a, 1 + d * a * b);
  }

  lemma SolvedTerms(a: int, b: int, d: int)
    ensures a * (1 + d * b) == a + d * (a * b)
  {
    assert a * (d * b) == d * (a * b);
  }

  /** With m = y2 y3, w = x2 x3 and e = d w m, the curve equations give
      1 - e^2 + m^2 - w^2 = (y2^2 + y3^2) (1 + d w^2). */
  lemma KeyFact(x2: int, y2: int, x3: int, y3: int, d: int, m: int, w: int, e: int)
    requires CurveEq(x2, y2, d) && CurveEq(x3, y3, d)
    requires m == y2 * y3 && w == x2 * x3 && e == d * (w * m)
    ensures Eq(1 - e * e + m * m - w * w, (y2 * y2 + y3 * y3) * (1 + d * (w * w)))
  {
    var a, b, c, f := x2 * x2, y2 * y2, x3 * x3, y3 * y3;
    assert Eq(b - a, 1 + d * a * b) && Eq(f - c, 1 + d * c * f);
    hide *;
    CurveSolved(a, b, d);
    CurveSolved(c, f, d);
    EqOp(a * (1 + d * b), b - 1, c * (1 + d * f), f - 1);
    EqSym((a * (1 + d * b)) * (c * (1 + d * f)), (b - 1) * (f - 1));
    SquareProduct(y2, y3);
    SquareProduct(x2, x3);
    GroupSquares(d, w, m);
    KeyTerms(a, b, c, f, d);
    EqDifference(1 - e * e + m * m - w * w, (b + f) * (1 + d * (w * w)),
      (b - 1) * (f - 1), (a * (1 + d * b)) * (c * (1 + d * f)));
  }

  lemma GroupSquares(d: int, w: int, m: int)
    ensures (d * (w * m)) * (d * (w * m)) == (d * (w * w)) * (d * (m * m))
  {
    Exchange(d, w * m, d, w * m);
    Exchange(w, m, w, m);
    Exchange(d, w * w, d, m * m);
  }

  lemma KeyTerms(a: int, b: int, c: int, f: int, d: int)
    ensures (1 - (d * (a * c)) * (d * (b * f)) + b * f - a * c) - (b + f) * (1 + d * (a * c))
      == (b - 1) * (f - 1) - (a * (1 + d * b)) * (c * (1 + d * f))
  {
    var k := a * c;
    Exchange(a, 1 + d * b, c, 1 + d * f);
    KeyProduct(k, d * b, d * f);
    Regroup(k, d, b, f);
    KeySum(k, d, b);
    KeySum(k, d, f);
    MulAdd(b, f, 1 + d * k);
    assert (b - 1) * (f - 1) == b * f - b - f + 1;
  }

  lemma KeyProduct(k: int, x: int, y: int)
    ensures k * ((1 + x) * (1 + y)) == k + k * x + k * y + k * (x * y)
  {
    assert (1 + x) * (1 + y) == 1 + x + y + x * y;
  }

  lemma KeySum(k: int, d: int, b: int)
    ensures b * (1 + d * k) == b + k * (d * b)
  {
    assert b * (d * k) == k * (d * b);
  }

  lemma Regroup(k: int, d: int, b: int, f: int)
    ensures k * ((d * b) * (d * f)) == (d * k) * (d * (b * f))
  {
    Exchange(d, b, d, f);
    Exchange(d, k, d, b * f);
    assert k * ((d * d) * (b * f)) == (d * d) * (k * (b * f));
  }

  /** y1 and y5 are the coordinates of the difference and of the sum of the points. */
  ghost predicate SumAndDifference(y1: int, y5: int, m: int, w: int, e: int) {
    !Eq(1 + e, 0) && !Eq(1 - e, 0) && Eq(y1 * (1 + e), m - w) && Eq(y5 * (1 - e), m + w)
  }

  /** 2 m - s y1 = y5 (s - 2 m y1) with s = y2^2 + y3^2: the law of differential addition. */
  lemma DifferentialLaw(y1: int, y5: int, m: int, w: int, e: int, s: int, d: int)
    requires PIsPrime() && e == d * (w * m) && SumAndDifference(y1, y5, m, w, e)
    requires Eq(1 - e * e + m * m - w * w, s * (1 + d * (w * w)))
    ensures Eq(2 * m - s * y1, y5 * (s - 2 * m * y1))
  {
    var g, h := 1 + e, 1 - e;
    assert Eq(y1 * g, m - w) && Eq(y5 * h, m + w) && !Eq(g, 0) && !Eq(h, 0);
    hide *;
    ProductNonzero(g, h);
    var l', r' := h * (2 * m * g - s * (m - w)), (m + w) * (s * g - 2 * m * (m - w));
    LawTerms(m, w, e, s, d);
    Certificate1(l', r', 2 * m, 1 - e * e + m * m - w * w, s * (1 + d * (w * w)));
    LawLeft(y1 * g, m - w, m, g, h, s);
    LawRight(y1 * g, m - w, y5 * h, m + w, m, g, s);
    EqTrans(h * (2 * m * g - s * (y1 * g)), l', r');
    EqSym((y5 * h) * (s * g - 2 * m * (y1 * g)), r');
    EqTrans(h * (2 * m * g - s * (y1 * g)), r', (y5 * h) * (s * g - 2 * m * (y1 * g)));
    LawScaled(y1, y5, m, g, h, s);
    CancelFactor(g * h, 2 * m - s * y1, y5 * (s - 2 * m * y1));
  }

  lemma LawTerms(m: int, w: int, e: int, s: int, d: int)
    requires e == d * (w * m)
    ensures (1 - e) * (2 * m * (1 + e) - s * (m - w)) - (m + w) * (s * (1 + e) - 2 * m * (m - w))
      == 2 * m * ((1 - e * e + m * m - w * w) - s * (1 + d * (w * w)))
  {
    var k, n := d * (w * w), m - w;
    assert e * w == m * k by { LawCross(m, w, d); }
    LawFirst(m, e, s, n);
    LawSecond(m, w, e, s);
    LawThird(m, w, e, s, k);
  }

  lemma LawCross(m: int, w: int, d: int)
    ensures (d * (w * m)) * w == m * (d * (w * w))
  {
  }

  lemma LawFirst(m: int, e: int, s: int, n: int)
    ensures (1 - e) * (2 * m * (1 + e) - s * n) == 2 * m * (1 - e * e) - s * ((1 - e) * n)
  {
    assert (1 - e) * (2 * m * (1 + e)) == 2 * m * ((1 - e) * (1 + e));
    assert (1 - e) * (s * n) == s * ((1 - e) * n);
  }

  lemma LawSecond(m: int, w: int, e: int, s: int)
    ensures (m + w) * (s * (1 + e) - 2 * m * (m - w)) == s * ((m + w) * (1 + e)) - 2 * m * (m * m - w * w)
  {
    var p := m + w;
    assert p * (s * (1 + e)) == s * (p * (1 + e));
    assert p * (2 * m * (m - w)) == 2 * m * (p * (m - w));
  }

  lemma LawThird(m: int, w: int, e: int, s: int, k: int)
    requires e * w == m * k
    ensures s * ((1 - e) * (m - w)) + s * ((m + w) * (1 + e)) == 2 * m * (s * (1 + k))
  {
    var x, y := (1 - e) * (m - w), (m + w) * (1 + e);
    assert x + y == 2 * (m * (1 + k));
    assert s * x + s * y == s * (x + y);
    assert s * (2 * (m * (1 + k))) == 2 * m * (s * (1 + k));
  }

  lemma LawLeft(a: int, n: int, m: int, g: int, h: int, s: int)
    requires Eq(a, n)
    ensures Eq(h * (2 * m * g - s * a), h * (2 * m * g - s * n))
  {
    hide *;
    assert h * (2 * m * g - s * a) - h * (2 * m * g - s * n) == (-(h * s)) * (a - n);
    Certificate1(h * (2 * m * g - s * a), h * (2 * m * g - s * n), -(h * s), a, n);
  }

  lemma LawRight(a: int, n: int, b: int, k: int, m: int, g: int, s: int)
    requires Eq(a, n) && Eq(b, k)
    ensures Eq(b * (s * g - 2 * m * a), k * (s * g - 2 * m * n))
  {
    hide *;
    assert (s * g - 2 * m * a) - (s * g - 2 * m * n) == (-(2 * m)) * (a - n);
    Certificate1(s * g - 2 * m * a, s * g - 2 * m * n, -(2 * m), a, n);
    EqOp(b, k, s * g - 2 * m * a, s * g - 2 * m * n);
  }

  lemma LawScaled(y1: int, y5: int, m: int, g: int, h: int, s: int)
    ensures (g * h) * (2 * m - s * y1) == h * (2 * m * g - s * (y1 * g))
    ensures (g * h) * (y5 * (s - 2 * m * y1)) == (y5 * h) * (s * g - 2 * m * (y1 * g))
  {
    assert g * (2 * m - s * y1) == 2 * m * g - s * (y1 * g);
    assert g * (s - 2 * m * y1) == s * g - 2 * m * (y1 * g);
    Exchange(g, h, s - 2 * m * y1, y5);
  }

  /** The denominator of the law does not vanish unless the difference has order one or two. */
  lemma LawDenominator(x2: int, y2: int, x3: int, y3: int, y1: int, y5: int, d: int, m: int, w: int, e: int, s: int)
    requires PIsPrime() && CurveEq(x2, y2, d) && CurveEq(x3, y3, d)
    requires m == y2 * y3 && w == x2 * x3 && e == d * (w * m) && s == y2 * y2 + y3 * y3
    requires Eq(y1 * (1 + e), m - w) && Eq(2 * m - s * y1, y5 * (s - 2 * m * y1))
    requires !Eq(1 - y1, 0) && !Eq(1 + y1, 0)
    ensures !Eq(s - 2 * m * y1, 0)
  {
    hide Eq, CurveEq, Residue;
    if Eq(s - 2 * m * y1, 0) {
      ZeroTimes(s - 2 * m * y1, y5);
      EqTrans(2 * m - s * y1, y5 * (s - 2 * m * y1), 0);
      // 2 m (1 - y1^2) = (2 m - s y1) + y1 (s - 2 m y1)
      ProductVanishes(m, s, y1);
      SquaresVanish(y2, y3, y1, m, s);
      OrderFour(x2, y2, x3, y3, y1, d, m, w, e);
      assert false;
    }
  }

  lemma ProductVanishes(m: int, s: int, y1: int)
    requires PIsPrime() && Eq(s - 2 * m * y1, 0) && Eq(2 * m - s * y1, 0) && !Eq(1 - y1, 0) && !Eq(1 + y1, 0)
    ensures Eq(m, 0) && Eq(s, 0)
  {
    hide *;
    ZeroTimes(s - 2 * m * y1, y1);
    EqOp(2 * m - s * y1, 0, (s - 2 * m * y1) * y1, 0);
    assert (2 * m - s * y1) + (s - 2 * m * y1) * y1 == (2 * m) * ((1 - y1) * (1 + y1)) by {
      assert (s - 2 * m * y1) * y1 == s * y1 - 2 * m * (y1 * y1);
      assert (1 - y1) * (1 + y1) == 1 - y1 * y1;
    }
    ProductNonzero(1 - y1, 1 + y1);
    TwoNonzero();
    if !Eq(m, 0) {
      ProductNonzero(2, m);
      ProductNonzero(2 * m, (1 - y1) * (1 + y1));
      assert false;
    }
    ZeroTimes(m, 2 * y1);
    assert m * (2 * y1) == 2 * m * y1;
    EqOp(s - 2 * m * y1, 0, m * (2 * y1), 0);
  }

  lemma SquaresVanish(y2: int, y3: int, y1: int, m: int, s: int)
    requires PIsPrime() && m == y2 * y3 && s == y2 * y2 + y3 * y3 && Eq(m, 0) && Eq(s, 0)
    ensures Eq(y2, 0) && Eq(y3, 0)
  {
    hide *;
    if !Eq(y2, 0) && !Eq(y3, 0) { ProductNonzero(y2, y3); }
    if Eq(y2, 0) { OtherVanishes(y2, y3); } else { OtherVanishes(y3, y2); }
  }

  lemma OtherVanishes(a: int, b: int)
    requires PIsPrime() && Eq(a, 0) && Eq(a * a + b * b, 0)
    ensures Eq(b, 0)
  {
    hide *;
    ZeroTimes(a, a);
    EqOp(a * a + b * b, 0, a * a, 0);
    SquareZero(b);
  }

  /** Two points with y = 0 differ by a point with y = 1 or y = -1. */
  lemma OrderFour(x2: int, y2: int, x3: int, y3: int, y1: int, d: int, m: int, w: int, e: int)
    requires PIsPrime() && CurveEq(x2, y2, d) && CurveEq(x3, y3, d) && Eq(y2, 0) && Eq(y3, 0)
    requires m == y2 * y3 && w == x2 * x3 && e == d * (w * m) && Eq(y1 * (1 + e), m - w)
    ensures Eq(1 - y1, 0) || Eq(1 + y1, 0)
  {
    hide Eq, Residue, PIsPrime;
    ImaginaryX(x2 * x2, y2, d);
    ImaginaryX(x3 * x3, y3, d);
    hide *;
    ZeroTimes(y2, y3);
    DifferenceIsW(y1, m, w, e, d);
    UnitSquare(y1, x2, x3);
  }

  lemma UnitSquare(y: int, a: int, b: int)
    requires PIsPrime() && Eq(y, -(a * b)) && Eq(a * a, -1) && Eq(b * b, -1)
    ensures Eq(1 - y, 0) || Eq(1 + y, 0)
  {
    hide *;
    var w := a * b;
    EqOp(a * a, -1, b * b, -1);
    SquareProduct(a, b);
    EqOp(y, -w, y, -w);
    assert (-w) * (-w) == w * w && (-1) * (-1) == 1 * 1;
    EqTrans(y * y, w * w, 1 * 1);
    SquareRoots(y, 1);
    EqRefl(1);
    if Eq(y, 1) { EqOp(1, 1, y, 1); } else { EqOp(1, 1, y, -1); }
  }

  lemma ImaginaryX(a: int, y: int, d: int)
    requires Eq(y, 0) && Eq(y * y - a, 1 + d * a * (y * y))
    ensures Eq(a, -1)
  {
    hide *;
    ZeroTimes(y, y);
    var b := y * y;
    Group(d, a, b);
    assert a - (-1) == (-1) * ((b - a) - (1 + d * (a * b))) + (1 - d * a) * (b - 0) by {
      assert (1 - d * a) * b == b - d * (a * b);
    }
    Certificate2(a, -1, -1, b - a, 1 + d * a * b, 1 - d * a, b, 0);
  }

  lemma DifferenceIsW(y1: int, m: int, w: int, e: int, d: int)
    requires Eq(m, 0) && e == d * (w * m) && Eq(y1 * (1 + e), m - w)
    ensures Eq(y1, -w)
  {
    hide *;
    assert y1 - (-w) == 1 * (y1 * (1 + e) - (m - w)) + (1 - y1 * (d * w)) * (m - 0) by {
      assert d * (w * m) == (d * w) * m;
      assert y1 * (1 + (d * w) * m) == y1 + (y1 * (d * w)) * m;
      assert (1 - y1 * (d * w)) * m == m - (y1 * (d * w)) * m;
    }
    Certificate2(y1, -w, 1, y1 * (1 + e), m - w, 1 - y1 * (d * w), m, 0);
  }

  // ---------- one differential addition ----------

  /** (S^2 + T^2) and (S^2 - T^2) for S = y2 + y3 and T = y3 - y2. */
  lemma SumDifferenceSquares(y2: int, y3: int, y1: int)
    ensures var s, t, m := (y2 + y3) * (y2 + y3), (y3 - y2) * (y3 - y2), y2 * y3;
      && (1 - y1) * s + (1 + y1) * t == 2 * ((y2 * y2 + y3 * y3) - 2 * m * y1)
      && (1 - y1) * s - (1 + y1) * t == 2 * (2 * m - (y2 * y2 + y3 * y3) * y1)
  {
    var m, q := y2 * y3, y2 * y2 + y3 * y3;
    assert (y2 + y3) * (y2 + y3) == q + 2 * m && (y3 - y2) * (y3 - y2) == q - 2 * m;
    assert (1 - y1) * (q + 2 * m) == q + 2 * m - q * y1 - 2 * m * y1;
    assert (1 + y1) * (q - 2 * m) == q - 2 * m + q * y1 - 2 * m * y1;
  }

  /** The ladder's sum, from the sums a, c and the differences b = y2 a, f = y3 c of the projective
      coordinates. */
  lemma DifferentialAdd(a: int, b: int, c: int, f: int, x1: int, y1: int, y2: int, y3: int, y5: int)
    requires PIsPrime() && !Eq(a, 0) && !Eq(c, 0) && Eq(b, y2 * a) && Eq(f, y3 * c)
    requires !Eq(1 - y1, 0) && Eq(x1 * (1 - y1), 1 + y1)
    requires var m, s := y2 * y3, y2 * y2 + y3 * y3;
      Eq(2 * m - s * y1, y5 * (s - 2 * m * y1)) && !Eq(s - 2 * m * y1, 0)
    ensures Stands((f * a + c * b) * (f * a + c * b), x1 * ((f * a - c * b) * (f * a - c * b)), y5)
  {
    hide *;
    var g, m, s := a * c, y2 * y3, y2 * y2 + y3 * y3;
    var sp, tm := (y2 + y3) * (y2 + y3), (y3 - y2) * (y3 - y2);
    CrossTerms(a, b, c, f, y2, y3, g);
    ScaledSquares(f * a + c * b, f * a - c * b, g, y2 + y3, y3 - y2, x1, y1);
    SumDifferenceSquares(y2, y3, y1);
    var gg, k := g * g, s - 2 * m * y1;
    var x, z := (f * a + c * b) * (f * a + c * b), x1 * ((f * a - c * b) * (f * a - c * b));
    assert gg * ((1 - y1) * sp + (1 + y1) * tm) == (2 * gg) * k;
    assert gg * ((1 - y1) * sp - (1 + y1) * tm) == (2 * gg) * (2 * m - s * y1);
    TwoNonzero();
    ProductNonzero(a, c);
    ProductNonzero(g, g);
    ProductNonzero(2, gg);
    FromScaled(x, z, 1 - y1, 2 * gg, k, 2 * m - s * y1, y5);
  }

  lemma CrossTerms(a: int, b: int, c: int, f: int, y2: int, y3: int, g: int)
    requires Eq(b, y2 * a) && Eq(f, y3 * c) && g == a * c
    ensures Eq(f * a + c * b, g * (y2 + y3)) && Eq(f * a - c * b, g * (y3 - y2))
  {
    hide *;
    EqRefl(a);
    EqRefl(c);
    EqOp(f, y3 * c, a, a);
    EqOp(c, c, b, y2 * a);
    EqOp(f * a, y3 * c * a, c * b, c * (y2 * a));
    assert y3 * c * a == g * y3 && c * (y2 * a) == g * y2;
    assert g * (y2 + y3) == g * y3 + g * y2 && g * (y3 - y2) == g * y3 - g * y2;
  }

  /** Squares of multiples of g, the second one scaled by x1 = (1 + y1) / (1 - y1). */
  lemma ScaledSquares(p: int, q: int, g: int, s: int, t: int, x1: int, y1: int)
    requires Eq(p, g * s) && Eq(q, g * t) && Eq(x1 * (1 - y1), 1 + y1)
    ensures Eq((1 - y1) * (p * p + x1 * (q * q)), (g * g) * ((1 - y1) * (s * s) + (1 + y1) * (t * t)))
    ensures Eq((1 - y1) * (p * p - x1 * (q * q)), (g * g) * ((1 - y1) * (s * s) - (1 + y1) * (t * t)))
  {
    hide *;
    EqOp(p, g * s, p, g * s);
    EqOp(q, g * t, q, g * t);
    SquareProduct(g, s);
    SquareProduct(g, t);
    ScaledSum(p * p, q * q, 1 - y1, 1 + y1, x1, g * g, s * s, t * t);
  }

  lemma ScaledSum(p: int, q: int, h: int, k: int, x1: int, g: int, s: int, t: int)
    requires Eq(p, g * s) && Eq(q, g * t) && Eq(x1 * h, k)
    ensures Eq(h * (p + x1 * q), g * (h * s + k * t)) && Eq(h * (p - x1 * q), g * (h * s - k * t))
  {
    hide *;
    EqRefl(h);
    EqOp(h, h, p, g * s);
    EqOp(x1 * h, k, q, g * t);
    EqOp(h * p, h * (g * s), (x1 * h) * q, k * (g * t));
    ScaledTerms(h, k, p, q, x1, g, s, t);
  }

  lemma ScaledTerms(h: int, k: int, p: int, q: int, x1: int, g: int, s: int, t: int)
    ensures h * (p + x1 * q) == h * p + (x1 * h) * q && h * (p - x1 * q) == h * p - (x1 * h) * q
    ensures g * (h * s + k * t) == h * (g * s) + k * (g * t) && g * (h * s - k * t) == h * (g * s) - k * (g * t)
  {
    assert h * (x1 * q) == (x1 * h) * q;
    assert g * (h * s) == h * (g * s) && g * (k * t) == k * (g * t);
  }

  /** h (x + z) = g k and h (x - z) = g n with n = y k, and h, g, k not zero. */
  lemma FromScaled(x: int, z: int, h: int, g: int, k: int, n: int, y: int)
    requires PIsPrime() && !Eq(h, 0) && !Eq(g, 0) && !Eq(k, 0)
    requires Eq(h * (x + z), g * k) && Eq(h * (x - z), g * n) && Eq(n, y * k)
    ensures Stands(x, z, y)
  {
    hide Eq, Residue;
    NonzeroProduct(h * (x + z), g, k);
    if Eq(x + z, 0) { ZeroTimes(x + z, h); assert false; }
    EqRefl(g);
    EqRefl(y);
    EqOp(g, g, n, y * k);
    EqOp(y, y, h * (x + z), g * k);
    assert g * (y * k) == y * (g * k) && y * (h * (x + z)) == h * (y * (x + z));
    EqSym(y * (h * (x + z)), y * (g * k));
    EqTrans(h * (x - z), g * n, y * (g * k));
    EqTrans(h * (x - z), y * (g * k), h * (y * (x + z)));
    CancelFactor(h, x - z, y * (x + z));
  }

  // ---------- one doubling ----------

  /** 121666 d = -121665 makes 1 + 121665 (1 - b) equal to 121666 (1 + d b), and the curve equation
      makes (1 + a) times that equal to b. */
  lemma DoublingFact(a: int, b: int, d: int, n: int)
    requires Eq(121666 * d, -121665) && Eq(b - a, 1 + d * a * b) && n == 1 + 121665 * (1 - b)
    ensures Eq(n * (1 + a), b)
  {
    hide *;
    Group(d, a, b);
    DoublingTerms(a, b, d, n);
    Certificate2(n * (1 + a), b, -(a * b), 121666 * d, -121665, -121666, b - a, 1 + d * a * b);
  }

  lemma DoublingTerms(a: int, b: int, d: int, n: int)
    requires n == 1 + 121665 * (1 - b)
    ensures n * (1 + a) - b
      == -(a * b) * (121666 * d - (-121665)) + (-121666) * ((b - a) - (1 + d * (a * b)))
  {
    var k := a * b;
    assert n * (1 + a) == n + 121666 * a - 121665 * k;
    assert -k * (121666 * d - (-121665)) == -121666 * (d * k) - 121665 * k;
  }

  /** With t = (1 - b) n the doubling is h (b - t) = y4 h (b + t), and b + t is not zero. */
  lemma DoublingLaw(a: int, b: int, d: int, n: int, t: int, h: int, y4: int)
    requires PIsPrime() && Eq(121666 * d, -121665) && Eq(b - a, 1 + d * a * b) && !Eq(121666, 0)
    requires n == 1 + 121665 * (1 - b) && t == (1 - b) * n
    requires h == 1 - d * (a * b) && !Eq(h, 0) && Eq(y4 * h, b + a)
    ensures Eq(h * (b - t), y4 * (h * (b + t))) && !Eq(b + t, 0)
  {
    hide *;
    DoublingFact(a, b, d, n);
    Group(d, a, b);
    SlopeTerms(a, b, d, n, t, h);
    Certificate2(h * (b - t), (b + a) * (b + t), b - t, b - a, 1 + d * a * b, -(2 * (1 - b)), n * (1 + a), b);
    EqRefl(b + t);
    EqOp(y4 * h, b + a, b + t, b + t);
    EqSym((y4 * h) * (b + t), (b + a) * (b + t));
    EqTrans(h * (b - t), (b + a) * (b + t), (y4 * h) * (b + t));
    MulAssoc(y4, h, b + t);
    if Eq(b + t, 0) {
      ZeroTimes(b + t, b + a);
      EqTrans(h * (b - t), (b + a) * (b + t), 0);
      if !Eq(b - t, 0) { ProductNonzero(h, b - t); }
      BothVanish(b, t, n);
      assert false;
    }
  }

  lemma SlopeTerms(a: int, b: int, d: int, n: int, t: int, h: int)
    requires t == (1 - b) * n && h == 1 - d * (a * b)
    ensures h * (b - t) - (b + a) * (b + t)
      == (b - t) * ((b - a) - (1 + d * (a * b))) + (-(2 * (1 - b))) * (n * (1 + a) - b)
  {
    var c := d * (a * b);
    assert (b - t) * ((b - a) - (1 + c)) == (b - t) * ((b - a) - 2) + (b - t) * (1 - c);
    SlopeRest(a, b, n, t);
  }

  lemma SlopeRest(a: int, b: int, n: int, t: int)
    requires t == (1 - b) * n
    ensures -((b + a) * (b + t)) == (b - t) * ((b - a) - 2) + (-(2 * (1 - b))) * (n * (1 + a) - b)
  {
    assert (1 - b) * (n * (1 + a)) == t * (1 + a) by { MulAssoc(1 - b, n, 1 + a); }
    assert (-(2 * (1 - b))) * (n * (1 + a) - b) == -(2 * (t * (1 + a))) + 2 * (b - b * b);
    assert (b - t) * ((b - a) - 2) == b * b - b * a - 2 * b - t * b + t * a + 2 * t;
    assert (b + a) * (b + t) == b * b + b * t + b * a + t * a;
  }

  lemma BothVanish(b: int, t: int, n: int)
    requires PIsPrime() && Eq(b + t, 0) && Eq(b - t, 0) && n == 1 + 121665 * (1 - b) && t == (1 - b) * n
    ensures Eq(121666, 0)
  {
    hide *;
    TwoNonzero();
    EqOp(b + t, 0, b - t, 0);
    assert (b + t) + (b - t) == 2 * b && (b + t) - (b - t) == 2 * t;
    if !Eq(b, 0) { ProductNonzero(2, b); }
    if !Eq(t, 0) { ProductNonzero(2, t); }
    assert 121666 - 0 == 1 * (t - 0) + (121666 + 121665 * (1 - b)) * (b - 0) by { VanishTerms(b, n, t); }
    Certificate2(121666, 0, 1, t, 0, 121666 + 121665 * (1 - b), b, 0);
  }

  lemma VanishTerms(b: int, n: int, t: int)
    requires n == 1 + 121665 * (1 - b) && t == (1 - b) * n
    ensures 121666 == t + (121666 + 121665 * (1 - b)) * b
  {
    assert (1 - b) * n == n - b * n;
    assert b * n == b * (121666 - 121665 * b);
  }

  /** The ladder's double, from the sum a and the difference b = y a of the projective
      coordinates. */
  lemma Doubling(a: int, b: int, x: int, y: int, y4: int, d: int)
    requires PIsPrime() && !Eq(a, 0) && Eq(b, y * a) && CurveEq(x, y, d)
    requires Eq(121666 * d, -121665) && !Eq(121666, 0)
    requires var h := 1 - d * ((x * x) * (y * y)); !Eq(h, 0) && Eq(y4 * h, y * y + x * x)
    ensures var e := a * a - b * b; Stands((a * a) * (b * b), e * (a * a + 121665 * e), y4)
  {
    hide Eq, Residue, PIsPrime;
    var yy, xx := y * y, x * x;
    var n, h, k := 1 + 121665 * (1 - yy), 1 - d * (xx * yy), (a * a) * (a * a);
    var t := (1 - yy) * n;
    assert Eq(yy - xx, 1 + d * xx * yy);
    hide *;
    DoublingLaw(xx, yy, d, n, t, h, y4);
    ProductNonzero(a, a);
    ProductNonzero(a * a, a * a);
    ProductNonzero(h, yy + t);
    DoubledCoordinates(a, b, y, yy, n, t, k);
    var e := a * a - b * b;
    ScaleBoth((a * a) * (b * b), e * (a * a + 121665 * e), k, yy, t, h);
    FromScaled((a * a) * (b * b), e * (a * a + 121665 * e), h, k, h * (yy + t), h * (yy - t), y4);
  }

  lemma DoubledCoordinates(a: int, b: int, y: int, yy: int, n: int, t: int, k: int)
    requires Eq(b, y * a) && yy == y * y && n == 1 + 121665 * (1 - yy) && t == (1 - yy) * n && k == (a * a) * (a * a)
    ensures var e := a * a - b * b;
      Eq((a * a) * (b * b), k * yy) && Eq(e * (a * a + 121665 * e), k * t)
  {
    hide *;
    var aa, bb := a * a, b * b;
    EqOp(b, y * a, b, y * a);
    SquareProduct(y, a);
    EqRefl(aa);
    EqOp(aa, aa, bb, yy * aa);
    var e := aa - bb;
    assert aa - yy * aa == (1 - yy) * aa;
    EqRefl(121665);
    EqOp(121665, 121665, e, (1 - yy) * aa);
    EqOp(aa, aa, 121665 * e, 121665 * ((1 - yy) * aa));
    EqOp(e, (1 - yy) * aa, aa + 121665 * e, aa + 121665 * ((1 - yy) * aa));
    assert aa * (yy * aa) == k * yy;
    assert aa + 121665 * ((1 - yy) * aa) == n * aa;
    assert ((1 - yy) * aa) * (n * aa) == k * t by { Exchange(1 - yy, aa, n, aa); }
  }

  lemma ScaleBoth(x: int, z: int, k: int, yy: int, t: int, h: int)
    requires Eq(x, k * yy) && Eq(z, k * t)
    ensures Eq(h * (x + z), k * (h * (yy + t))) && Eq(h * (x - z), k * (h * (yy - t)))
  {
    hide *;
    EqOp(x, k * yy, z, k * t);
    EqRefl(h);
    EqOp(h, h, x + z, k * yy + k * t);
    EqOp(h, h, x - z, k * yy - k * t);
    assert h * (k * yy + k * t) == k * (h * (yy + t)) && h * (k * yy - k * t) == k * (h * (yy - t)) by {
      assert k * yy + k * t == k * (yy + t) && k * yy - k * t == k * (yy - t);
    }
  }

  // ---------- one ladder step ----------

  /** The step's products as integers. */
  lemma StepValues(x1: Fp, s: Ladder)
    ensures var a, b, c, f: int := s.x2 + s.z2, s.x2 - s.z2, s.x3 + s.z3, s.x3 - s.z3;
      var e, t := a * a - b * b, Step(x1, s);
      && Eq(t.x2, (a * a) * (b * b)) && Eq(t.z2, e * (a * a + 121665 * e))
      && Eq(t.x3, (f * a + c * b) * (f * a + c * b)) && Eq(t.z3, x1 * ((f * a - c * b) * (f * a - c * b)))
  {
    var a, b, c, f: int := s.x2 + s.z2, s.x2 - s.z2, s.x3 + s.z3, s.x3 - s.z3;
    var a', b' := FAdd(s.x2, s.z2), FSub(s.x2, s.z2);
    var da, cb := FMul(FSub(s.x3, s.z3), a'), FMul(FAdd(s.x3, s.z3), b');
    hide FAdd, FSub, FMul, Eq, Residue;
    OpsEq(s.x2, s.z2);
    OpsEq(s.x3, s.z3);
    DoubleValues(FMul(a', a'), FMul(b', b'), a', b', a, b);
    FMulEq(FSub(s.x3, s.z3), f, a', a);
    FMulEq(FAdd(s.x3, s.z3), c, b', b);
    AddValues(x1, da, f * a, cb, c * b);
  }

  lemma DoubleValues(aa: Fp, bb: Fp, a': int, b': int, a: int, b: int)
    requires aa == FMul(a', a') && bb == FMul(b', b') && Eq(a', a) && Eq(b', b)
    ensures var e, e' := a * a - b * b, FSub(aa, bb);
      Eq(FMul(aa, bb), (a * a) * (b * b)) && Eq(FMul(e', FAdd(aa, FMul(121665, e'))), e * (a * a + 121665 * e))
  {
    hide *;
    var e, e' := a * a - b * b, FSub(aa, bb);
    FMulEq(a', a, a', a);
    FMulEq(b', b, b', b);
    FMulEq(aa, a * a, bb, b * b);
    FSubEq(aa, a * a, bb, b * b);
    EqRefl(121665);
    FMulEq(121665, 121665, e', e);
    FSubEq(aa, a * a, FMul(121665, e'), 121665 * e);
    FMulEq(e', e, FAdd(aa, FMul(121665, e')), a * a + 121665 * e);
  }

  lemma AddValues(x1: Fp, da: Fp, p: int, cb: Fp, q: int)
    requires Eq(da, p) && Eq(cb, q)
    ensures Eq(FMul(FAdd(da, cb), FAdd(da, cb)), (p + q) * (p + q))
    ensures Eq(FMul(x1, FMul(FSub(da, cb), FSub(da, cb))), x1 * ((p - q) * (p - q)))
  {
    hide *;
    FSubEq(da, p, cb, q);
    FMulEq(FAdd(da, cb), p + q, FAdd(da, cb), p + q);
    FMulEq(FSub(da, cb), p - q, FSub(da, cb), p - q);
    EqRefl(x1);
    FMulEq(x1, x1, FMul(FSub(da, cb), FSub(da, cb)), (p - q) * (p - q));
  }

  /** p and q differ by b, one way or the other. */
  ghost predicate Apart(p: Point, q: Point, b: Point) {
    PAdd(q, PNeg(p)) == b || PAdd(p, PNeg(q)) == b
  }

  lemma ApartMeaning(p: Point, q: Point, b: Point)
    requires PIsPrime() && OnCurve(p) && OnCurve(q) && Apart(p, q, b)
    ensures SumAndDifference(b.y, PAdd(p, q).y, p.y * q.y, p.x * q.x, D * ((p.x * q.x) * (p.y * q.y)))
  {
    hide OnCurve, PAdd, PNeg, Eq, Residue, FMul, D;
    AddMeaning(p, q);
    Exchange(p.x, p.y, q.x, q.y);
    if PAdd(q, PNeg(p)) == b {
      DifferenceY(q, p);
    } else {
      DifferenceY(p, q);
      Exchange(q.x, p.x, q.y, p.y);
    }
  }

  /** The coordinate y of q - p. */
  lemma DifferenceY(q: Point, p: Point)
    requires PIsPrime() && OnCurve(p) && OnCurve(q)
    ensures Eq(PAdd(q, PNeg(p)).y * (1 + D * ((p.x * q.x) * (p.y * q.y))), p.y * q.y - p.x * q.x)
  {
    hide OnCurve, PAdd, Eq, Residue, FMul, D;
    NegOnCurve(p);
    NegMeaning(p);
    AddMeaning(q, PNeg(p));
    NegatedSum(PAdd(q, PNeg(p)).y, q.x, q.y, PNeg(p).x, p.x, p.y, D);
  }

  lemma NegatedSum(y: int, qx: int, qy: int, nx: int, px: int, py: int, d: int)
    requires Eq(nx, -px) && Eq(y * (1 - d * ((qx * qy) * (nx * py))), qy * py + qx * nx)
    ensures Eq(y * (1 + d * ((px * qx) * (py * qy))), py * qy - px * qx)
  {
    hide *;
    var k := d * ((qx * qy) * py);
    NegatedSumTerms(y, qx, qy, nx, px, py, d, k);
    Certificate2(y * (1 + d * ((px * qx) * (py * qy))), py * qy - px * qx,
      1, y * (1 - d * ((qx * qy) * (nx * py))), qy * py + qx * nx, y * k + qx, nx, -px);
  }

  lemma NegatedSumTerms(y: int, qx: int, qy: int, nx: int, px: int, py: int, d: int, k: int)
    requires k == d * ((qx * qy) * py)
    ensures y * (1 + d * ((px * qx) * (py * qy))) - (py * qy - px * qx)
      == 1 * (y * (1 - d * ((qx * qy) * (nx * py))) - (qy * py + qx * nx)) + (y * k + qx) * (nx - (-px))
  {
    assert d * ((px * qx) * (py * qy)) == k * px by { FactorLast(d, qx, qy, py, px); Exchange(px, qx, py, qy); }
    assert d * ((qx * qy) * (nx * py)) == k * nx by { FactorLast(d, qx, qy, py, nx); }
    assert y * (1 + k * px) == y + (y * k) * px && y * (1 - k * nx) == y - (y * k) * nx;
    assert (y * k + qx) * (nx + px) == (y * k) * nx + (y * k) * px + qx * nx + qx * px;
  }

  lemma FactorLast(d: int, qx: int, qy: int, py: int, x: int)
    ensures d * ((qx * qy) * (x * py)) == (d * ((qx * qy) * py)) * x
    ensures (x * py) * (qx * qy) == (qx * qy) * (x * py)
  {
    assert (qx * qy) * (x * py) == ((qx * qy) * py) * x;
    MulAssoc(d, (qx * qy) * py, x);
  }

  /** The step doubles the first point and adds the second, whose difference is the point the
      ladder started from. */
  lemma StepMeaning(x1: Fp, s: Ladder, p: Point, q: Point, b: Point)
    requires PIsPrime() && OnCurve(p) && OnCurve(q) && Apart(p, q, b)
    requires Stands(s.x2, s.z2, p.y) && Stands(s.x3, s.z3, q.y)
    requires !Eq(1 - b.y, 0) && !Eq(1 + b.y, 0) && Eq(x1 * (1 - b.y), 1 + b.y)
    ensures var t := Step(x1, s); Stands(t.x2, t.z2, PAdd(p, p).y) && Stands(t.x3, t.z3, PAdd(p, q).y)
  {
    hide OnCurve, Apart, PAdd, Eq, Residue, FMul, D, Step;
    var a, u, c, f: int := s.x2 + s.z2, s.x2 - s.z2, s.x3 + s.z3, s.x3 - s.z3;
    var e, t := a * a - u * u, Step(x1, s);
    StepValues(x1, s);
    DoublesPoint(a, u, p);
    AddsPoints(a, u, c, f, x1, p, q, b);
    hide Stands;
    StandsEq(t.x2, (a * a) * (u * u), t.z2, e * (a * a + 121665 * e), PAdd(p, p).y);
    StandsEq(t.x3, (f * a + c * u) * (f * a + c * u), t.z3, x1 * ((f * a - c * u) * (f * a - c * u)), PAdd(p, q).y);
  }

  lemma CurveScalar()
    requires PIsPrime()
    ensures Eq(121666 * D, -121665) && !Eq(121666, 0)
  {
    CurveConstant();
    ConstantProducts();
    hide FMul, FNeg, D, Residue, Eq;
    EqOfMul(121666, D);
    OpsEq(0, 121665);
    EqSym(FMul(121666, D), 121666 * D);
    EqTrans(121666 * D, FNeg(121665), -121665);
    NotZero(121666);
  }

  lemma DoublesPoint(a: int, u: int, p: Point)
    requires PIsPrime() && OnCurve(p) && !Eq(a, 0) && Eq(u, p.y * a)
    ensures var e := a * a - u * u; Stands((a * a) * (u * u), e * (a * a + 121665 * e), PAdd(p, p).y)
  {
    hide PAdd, Eq, Residue, FMul, D, Stands, CurveEq;
    AddMeaning(p, p);
    SquareProduct(p.x, p.y);
    CurveScalar();
    Doubling(a, u, p.x, p.y, PAdd(p, p).y, D);
  }

  lemma AddsPoints(a: int, u: int, c: int, f: int, x1: Fp, p: Point, q: Point, b: Point)
    requires PIsPrime() && OnCurve(p) && OnCurve(q) && Apart(p, q, b)
    requires !Eq(a, 0) && !Eq(c, 0) && Eq(u, p.y * a) && Eq(f, q.y * c)
    requires !Eq(1 - b.y, 0) && !Eq(1 + b.y, 0) && Eq(x1 * (1 - b.y), 1 + b.y)
    ensures Stands((f * a + c * u) * (f * a + c * u), x1 * ((f * a - c * u) * (f * a - c * u)), PAdd(p, q).y)
  {
    hide PAdd, Eq, Residue, FMul, D, Stands, CurveEq, Apart;
    ApartMeaning(p, q, b);
    AddsOrdinates(a, u, c, f, x1, p.x, p.y, q.x, q.y, b.y, PAdd(p, q).y, D);
  }

  lemma AddsOrdinates(a: int, u: int, c: int, f: int, x1: int, px: int, py: int, qx: int, qy: int,
                      y1: int, y5: int, d: int)
    requires PIsPrime() && CurveEq(px, py, d) && CurveEq(qx, qy, d)
    requires SumAndDifference(y1, y5, py * qy, px * qx, d * ((px * qx) * (py * qy)))
    requires !Eq(a, 0) && !Eq(c, 0) && Eq(u, py * a) && Eq(f, qy * c)
    requires !Eq(1 - y1, 0) && !Eq(1 + y1, 0) && Eq(x1 * (1 - y1), 1 + y1)
    ensures Stands((f * a + c * u) * (f * a + c * u), x1 * ((f * a - c * u) * (f * a - c * u)), y5)
  {
    var m, w, s := py * qy, px * qx, py * py + qy * qy;
    var e := d * (w * m);
    assert Eq(y1 * (1 + e), m - w);
    hide *;
    KeyFact(px, py, qx, qy, d, m, w, e);
    DifferentialLaw(y1, y5, m, w, e, s, d);
    LawDenominator(px, py, qx, qy, y1, y5, d, m, w, e, s);
    DifferentialAdd(a, u, c, f, x1, y1, py, qy, y5);
  }

  // ---------- the ladder ----------

  /** The start: the neutral element and the point itself. */
  lemma LadderStart(x1: Fp, y: Fp)
    requires PIsPrime() && !Eq(1 - y, 0) && Eq(x1 * (1 - y), 1 + y)
    ensures Stands(1, 0, 1) && Stands(x1, 1, y)
  {
    hide Eq, Residue;
    TwoNonzero();
    EqRefl(1);
    assert x1 - 1 - y * (x1 + 1) == x1 * (1 - y) - (1 + y);
    EqDifference(x1 - 1, y * (x1 + 1), x1 * (1 - y), 1 + y);
    if Eq(x1 + 1, 0) {
      ZeroTimes(x1 + 1, 1 - y);
      assert (x1 + 1) * (1 - y) == x1 * (1 - y) + (1 - y);
      EqSym(x1 * (1 - y), 1 + y);
      EqRefl(1 - y);
      EqOp(1 + y, x1 * (1 - y), 1 - y, 1 - y);
      EqTrans(2, (x1 + 1) * (1 - y), 0);
      assert false;
    }
  }

  /** After each bit the ladder stands for the multiples (k >> t) p and one more. */
  lemma {:induction false} ClimbMeaning(x1: Fp, p: Point, k: nat, t: nat)
    requires PIsPrime() && AdditionAssociates() && OnCurve(p) && t <= 255 && k < Pow2(255)
    requires !Eq(1 - p.y, 0) && !Eq(1 + p.y, 0) && Eq(x1 * (1 - p.y), 1 + p.y)
    ensures var s := Climb(x1, k, t);
      Stands(s.x2, s.z2, Times(Shr(k, t), p).y) && Stands(s.x3, s.z3, Times(Shr(k, t) + 1, p).y)
    decreases 255 - t
  {
    hide OnCurve, Stands, Step, PAdd, Times, Eq, Residue, Shr, Pow2, AdditionAssociates, PIsPrime;
    if t == 255 {
      ShrEnds(k, 255);
      TimesOne(p);
      LadderStart(x1, p.y);
    } else {
      ClimbMeaning(x1, p, k, t + 1);
      HalfStep(k, t);
      Rung(x1, Climb(x1, k, t + 1), p, Shr(k, t + 1), Shr(k, t) % 2 == 1);
    }
  }

  /** One bit, with the swap before and after. */
  lemma Rung(x1: Fp, s: Ladder, p: Point, m: nat, bit: bool)
    requires PIsPrime() && AdditionAssociates() && OnCurve(p)
    requires Stands(s.x2, s.z2, Times(m, p).y) && Stands(s.x3, s.z3, Times(m + 1, p).y)
    requires !Eq(1 - p.y, 0) && !Eq(1 + p.y, 0) && Eq(x1 * (1 - p.y), 1 + p.y)
    ensures var n, t := 2 * m + (if bit then 1 else 0), Swapped(Step(x1, Swapped(s, bit)), bit);
      Stands(t.x2, t.z2, Times(n, p).y) && Stands(t.x3, t.z3, Times(n + 1, p).y)
  {
    hide OnCurve, Stands, Step, PAdd, PNeg, Times, Eq, Residue, AdditionAssociates, PIsPrime;
    Neighbours(m, p);
    TimesAdd(m, m, p);
    TimesAdd(m, m + 1, p);
    TimesAdd(m + 1, m, p);
    TimesAdd(m + 1, m + 1, p);
    var a, b := Times(m, p), Times(m + 1, p);
    if bit { StepMeaning(x1, Swapped(s, true), b, a, p); } else { StepMeaning(x1, s, a, b, p); }
  }

  lemma Neighbours(m: nat, p: Point)
    requires PIsPrime() && AdditionAssociates() && OnCurve(p)
    ensures OnCurve(Times(m, p)) && OnCurve(Times(m + 1, p))
    ensures Apart(Times(m, p), Times(m + 1, p), p) && Apart(Times(m + 1, p), Times(m, p), p)
  {
    hide OnCurve, PAdd, PNeg, AdditionAssociates, PIsPrime;
    TimesOnCurve(m, p);
    TimesOnCurve(m + 1, p);
    CancelPoint(Times(m, p), p);
  }

  /** x / z by the source's inverse is the u-coordinate. */
  lemma FromProjective(x: Fp, z: Fp, p: Point)
    requires PIsPrime() && Stands(x, z, p.y)
    ensures FMul(x, FInv(z)) == U(p)
  {
    hide Eq, Residue, FMul, FInv, PIsPrime;
    var y: int, n, h := p.y, FAdd(1, p.y), FSub(1, p.y);
    OpsEq(1, y);
    // x (1 - y) = z (1 + y)
    EqDifference(x * (1 - y), z * (1 + y), x - z, y * (x + z)) by {
      assert x * (1 - y) - z * (1 + y) == x - z - y * (x + z);
    }
    EqRefl(x);
    EqRefl(z);
    EqOp(x, x, h, 1 - y);
    EqOp(z, z, n, 1 + y);
    EqSym(z * n, z * (1 + y));
    EqTrans(x * h, x * (1 - y), z * (1 + y));
    EqTrans(x * h, z * (1 + y), z * n);
    BothOrNeither(x, z, n, h, y);
    SameRatio(x, z, n, h);
  }

  /** z vanishes exactly with 1 - y. */
  lemma BothOrNeither(x: Fp, z: Fp, n: Fp, h: Fp, y: int)
    requires PIsPrime() && !Eq(x + z, 0) && Eq(x - z, y * (x + z)) && Eq(h, 1 - y) && Eq(n, 1 + y) && Eq(x * h, z * n)
    ensures z == 0 <==> h == 0
  {
    hide *;
    TwoNonzero();
    // 2 z = (x + z) (1 - y)
    EqRefl(x + z);
    EqOp(x + z, x + z, x - z, y * (x + z));
    assert (x + z) - (x - z) == 2 * z && (x + z) - y * (x + z) == (x + z) * (1 - y);
    if z == 0 && h != 0 {
      NotZero(h);
      if Eq(1 - y, 0) { EqTrans(h, 1 - y, 0); assert false; }
      ProductNonzero(x + z, 1 - y);
      EqSym(2 * z, (x + z) * (1 - y));
      assert false;
    }
    if h == 0 && z != 0 {
      NotZero(z);
      EqSym(h, 1 - y);
      ZeroTimes(1 - y, x + z);
      EqTrans(2 * z, (x + z) * (1 - y), 0);
      ProductNonzero(2, z);
      assert false;
    }
  }

  lemma SameRatio(x: Fp, z: Fp, n: Fp, h: Fp)
    requires PIsPrime() && Eq(x * h, z * n) && (z == 0 <==> h == 0)
    ensures FMul(x, FInv(z)) == FMul(n, FInv(h))
  {
    hide Eq, Residue, PIsPrime, FInv;
    InverseLaw(z);
    InverseLaw(h);
    if z == 0 {
      TimesZeroField(x);
      TimesZeroField(n);
    } else {
      hide FMul;
      assert FMul(x, h) == FMul(z, n) by { EqSame(x * h, z * n); ProductsOf(x, h, z, n); }
      CrossRatio(x, z, n, h, FInv(z), FInv(h));
    }
  }

  lemma TimesZeroField(x: Fp)
    ensures FMul(x, 0) == 0
  {
    OwnResidue(0);
    hide Residue;
  }

  lemma ProductsOf(x: Fp, h: Fp, z: Fp, n: Fp)
    requires Residue(x * h) == Residue(z * n)
    ensures FMul(x, h) == FMul(z, n)
  {
    hide Residue;
  }

  /** x h = z n, z v = 1 and h w = 1 give x v = n w. */
  lemma CrossRatio(x: Fp, z: Fp, n: Fp, h: Fp, v: Fp, w: Fp)
    requires FMul(x, h) == FMul(z, n) && FMul(z, v) == 1 && FMul(h, w) == 1
    ensures FMul(x, v) == FMul(n, w)
  {
    hide *;
    // x v = (x v)(h w) = (x h)(v w) = (z n)(v w) = (z v)(n w)
    FMulOne(FMul(x, v));
    FMulExchange(x, v, h, w);
    FMulExchange(z, n, v, w);
    FMulOne(FMul(n, w));
  }

  // ---------- the theorem ----------

  /** Ordinates of points other than the neutral element. */
  lemma OrdinateOne(p: Point)
    requires PIsPrime() && OnCurve(p)
    ensures p.y == 1 <==> p == ZERO
    ensures p.y == P - 1 ==> p.x == 0
  {
    hide Residue, Eq, PIsPrime, D;
    if p.y == 1 || p.y == P - 1 {
      UnitOrdinate(p.y);
      CurveScalar();
      OnlyZero(p.x, p.y, D);
      EqCanonical(p.x, 0);
    }
  }

  lemma UnitOrdinate(y: int)
    requires y == 1 || y == P - 1
    ensures Eq(y * y, 1)
  {
    hide Eq, Residue;
    if y == 1 {
      EqRefl(1);
    } else {
      MinusOneValue(y, P);
      EqIntro(y * y, 1, P - 2);
    }
  }

  lemma MinusOneValue(y: int, p: int)
    requires y == p - 1
    ensures y * y == 1 + (p - 2) * p
  {
  }

  lemma OnlyZero(x: int, y: int, d: int)
    requires PIsPrime() && Eq(y * y, 1) && CurveEq(x, y, d) && Eq(121666 * d, -121665)
    ensures Eq(x, 0)
  {
    hide Eq, Residue, PIsPrime;
    var a, b := x * x, y * y;
    assert Eq(b - a, 1 + d * a * b);
    hide *;
    Group(d, a, b);
    OnlyZeroTerms(a, b, d);
    EqRefl(0);
    Certificate4(a, 0, -a, 121666 * d, -121665, -121666, b - a, 1 + d * a * b, 121666 * (1 - d * a), b, 1, 0, 0, 0);
    SquareZero(x);
  }

  lemma OnlyZeroTerms(a: int, b: int, d: int)
    ensures a - 0 == (-a) * (121666 * d - (-121665)) + (-121666) * ((b - a) - (1 + d * (a * b)))
      + 121666 * (1 - d * a) * (b - 1) + 0 * (0 - 0)
  {
    var k := d * a;
    assert d * (a * b) == k * b;
    assert a * (121666 * d) == 121666 * k;
    assert (1 - k) * (b - 1) == b - 1 - k * b + k;
  }

  /** The parts of a u-coordinate as integers. */
  lemma Parts(y: Fp)
    ensures Eq(FAdd(1, y), 1 + y) && Eq(FSub(1, y), 1 - y)
    ensures FAdd(1, y) == 0 <==> Eq(1 + y, 0)
    ensures FSub(1, y) == 0 <==> Eq(1 - y, 0)
    ensures FSub(1, y) == 0 <==> y == 1
  {
    hide *;
    OpsEq(1, y);
    ZeroIff(FAdd(1, y), 1 + y);
    ZeroIff(FSub(1, y), 1 - y);
    OneIff(y);
  }

  lemma ZeroIff(x: Fp, v: int)
    requires Eq(x, v)
    ensures x == 0 <==> Eq(v, 0)
  {
    hide *;
    EqSym(x, v);
    if Eq(v, 0) {
      EqTrans(x, v, 0);
      EqCanonical(x, 0);
    }
  }

  lemma OneIff(y: Fp)
    ensures y == 1 <==> Eq(1 - y, 0)
  {
    hide *;
    EqRefl(y);
    EqRefl(0);
    if Eq(1 - y, 0) {
      EqOp(1 - y, 0, y, y);
      EqCanonical(1, y);
    }
  }

  /** The u-coordinate of an ordinary point. */
  lemma Ordinary(p: Point)
    requires PIsPrime() && OnCurve(p) && p != ZERO && U(p) != 0
    ensures !Eq(1 - p.y, 0) && !Eq(1 + p.y, 0) && Eq(U(p) * (1 - p.y), 1 + p.y)
  {
    hide Eq, Residue, FMul, FInv, FAdd, FSub, PIsPrime, OnCurve;
    OrdinateOne(p);
    Parts(p.y);
    QuotientMeaning(FAdd(1, p.y), 1 + p.y, FSub(1, p.y), 1 - p.y);
    FMulComm(0, FInv(FSub(1, p.y)));
    TimesZeroField(FInv(FSub(1, p.y)));
  }

  /** The point of order two: the only one besides the neutral element with u = 0. */
  lemma OrderTwo(p: Point)
    requires PIsPrime() && OnCurve(p) && p != ZERO && U(p) == 0
    ensures p == Point(0, P - 1)
  {
    hide Eq, Residue, FMul, FInv, FAdd, FSub, PIsPrime, OnCurve;
    OrdinateOne(p);
    Parts(p.y);
    InverseLaw(FSub(1, p.y));
    FactorZero(FAdd(1, p.y), FInv(FSub(1, p.y)));
    MinusOneOnly(p.y);
  }

  lemma MinusOneOnly(y: Fp)
    requires Eq(1 + y, 0)
    ensures y == P - 1
  {
    hide Eq, Residue;
    EqIntro(P - 1, -1, 1);
    EqRefl(1);
    EqOp(1 + y, 0, 1, 1);
    EqSym(P - 1, -1);
    EqTrans(y, -1, P - 1);
    EqCanonical(y, P - 1);
  }

  lemma FactorZero(n: Fp, v: Fp)
    requires PIsPrime() && FMul(n, v) == 0 && v != 0
    ensures n == 0
  {
    hide Residue, FMul, Eq, PIsPrime;
    if n != 0 {
      NotZero(n);
      NotZero(v);
      ProductNonzero(n, v);
      EqOfMul(n, v);
      EqSym(FMul(n, v), n as int * v as int);
      assert false;
    }
  }

  lemma TwiceOrderTwo(p: Point)
    requires PIsPrime() && OnCurve(p) && p == Point(0, P - 1)
    ensures PAdd(p, p) == ZERO
  {
    AddNeg(p);
    NegIs(0);
    hide PAdd, OnCurve, Residue;
  }

  lemma {:induction false} TimesOrderTwo(k: nat, p: Point)
    requires PIsPrime() && OnCurve(p) && p == Point(0, P - 1)
    ensures Times(k, p) == ZERO || Times(k, p) == p
  {
    hide PAdd, OnCurve, PIsPrime;
    if k > 0 {
      TimesOrderTwo(k - 1, p);
      TwiceOrderTwo(p);
      AddZero(p);
    }
  }

  lemma ZeroU()
    requires PIsPrime()
    ensures U(ZERO) == 0
  {
    InverseLaw(0);
    OwnResidue(0);
    hide Residue, FInv, PIsPrime;
    TimesZeroField(FAdd(1, 1));
  }

  /** From u = 0 the ladder only ever holds zeros and points at infinity. */
  ghost predicate Degenerate(s: Ladder) { (s.x2 == 0 || s.z2 == 0) && (s.x3 == 0 || s.z3 == 0) }

  lemma DegenerateStep(s: Ladder)
    requires Degenerate(s)
    ensures Degenerate(Step(0, s))
  {
    hide Step, Eq, Residue;
    StepValues(0, s);
    var t := Step(0, s);
    DegenerateDouble(s.x2, s.z2);
    var c, f, a, b: int := s.x3 + s.z3, s.x3 - s.z3, s.x2 + s.z2, s.x2 - s.z2;
    EqCanonical(t.z2, 0);
    assert 0 * ((f * a - c * b) * (f * a - c * b)) == 0;
    EqCanonical(t.z3, 0);
  }

  lemma DegenerateDouble(x: int, z: int)
    requires x == 0 || z == 0
    ensures var a, b := x + z, x - z; var e := a * a - b * b; e * (a * a + 121665 * e) == 0
  {
  }

  lemma {:induction false} DegenerateClimb(k: nat, t: nat)
    requires t <= 255
    ensures Degenerate(Climb(0, k, t))
    decreases 255 - t
  {
    hide Step, Shr;
    if t < 255 {
      DegenerateClimb(k, t + 1);
      DegenerateStep(Swapped(Climb(0, k, t + 1), Shr(k, t) % 2 == 1));
    }
  }

  lemma DegenerateResult(s: Ladder)
    requires PIsPrime() && Degenerate(s)
    ensures FMul(s.x2, FInv(s.z2)) == 0
  {
    InverseLaw(s.z2);
    hide Residue, FInv, PIsPrime, FMul;
    if s.z2 == 0 {
      TimesZeroField(s.x2);
    } else {
      TimesZeroField(FInv(s.z2));
      FMulComm(0, FInv(s.z2));
    }
  }

  /** The field element x2 / z2 that the ladder ends with. */
  function LadderResult(x1: Fp, k: nat): Fp {
    var s := Climb(x1, k, 0);
    FMul(s.x2, FInv(s.z2))
  }

  /** The ladder takes the u-coordinate of p to that of k p, for every point of the curve but the
      neutral element, which has none. */
  lemma LadderMeaning(k: nat, p: Point)
    requires PIsPrime() && AdditionAssociates() && OnCurve(p) && p != ZERO && k < Pow2(255)
    ensures LadderResult(U(p), k) == U(Times(k, p))
  {
    hide U, OnCurve, Climb, Times, Stands, Degenerate, Shr, Pow2, AdditionAssociates, PIsPrime, FMul, FInv, Eq, Residue;
    if U(p) == 0 {
      OrderTwo(p);
      TimesOrderTwo(k, p);
      ZeroU();
      DegenerateClimb(k, 0);
      DegenerateResult(Climb(0, k, 0));
    } else {
      Ordinary(p);
      ClimbMeaning(U(p), p, k, 0);
      ShrEnds(k, 255);
      var s := Climb(U(p), k, 0);
      FromProjective(s.x2, s.z2, Times(k, p));
    }
  }

  lemma ReadCoordinate(x: Fp)
    ensures Residue(LE(ToLE(x, 32)) % Fe25519.W5) == x
  {
    FeBytes.EncodingRoundTrip(x);
    OwnResidue(x);
    hide LE, ToLE, Residue;
  }

  lemma ClampBelow(s: seq<byte>)
    requires |s| == 32
    ensures LE(Clamp(s)) < Pow2(255)
  {
    ClampValue(s);
    Pow2Values();
    hide LE, Clamp, Pow2;
  }

  /** For the u-coordinate of a curve point the bytes X25519 returns are the u-coordinate of k times
      the point, where k is bits 3 to 253 of the scalar and bit 254 (RFC 7748, section 5). */
  lemma Curve25519Meaning(scalar: seq<byte>, point: seq<byte>, p: Point)
    requires PIsPrime() && AdditionAssociates() && OnCurve(p) && p != ZERO
    requires |scalar| == 32 && |point| == 32 && Residue(LE(point) % Fe25519.W5) == U(p)
    ensures var k := Pow2(254) + 8 * (LE(scalar) / 8 % Pow2(251));
      Curve25519(scalar, point) == ToLE(U(Times(k, p)), 32)
  {
    ClampBelow(scalar);
    ClampNumber(scalar);
    hide U, OnCurve, Climb, Times, Pow2, AdditionAssociates, PIsPrime, FMul, FInv, Residue, LE, ToLE, Clamp;
    LadderMeaning(LE(Clamp(scalar)), p);
  }

  /** The scalar X25519 applies. */
  function Applied(scalar: seq<byte>): nat
    requires |scalar| == 32
  {
    Pow2(254) + 8 * (LE(scalar) / 8 % Pow2(251))
  }

  /** u = 0 gives 0 for every scalar. */
  lemma Curve25519Zero(scalar: seq<byte>)
    requires PIsPrime() && |scalar| == 32
    ensures Curve25519(scalar, ToLE(0, 32)) == ToLE(0, 32)
  {
    ReadCoordinate(0);
    hide Climb, Degenerate, PIsPrime, FMul, FInv, Residue, LE, ToLE, Clamp;
    DegenerateClimb(LE(Clamp(scalar)), 0);
    DegenerateResult(Climb(0, LE(Clamp(scalar)), 0));
  }

  /** Applying one scalar after another is applying their product. */
  lemma AppliedTwice(a: seq<byte>, b: seq<byte>, point: seq<byte>, p: Point, ka: nat, kb: nat, k: nat)
    requires PIsPrime() && AdditionAssociates() && OnCurve(p) && p != ZERO
    requires |a| == 32 && |b| == 32 && |point| == 32 && Residue(LE(point) % Fe25519.W5) == U(p)
    requires ka == Applied(a) && kb == Applied(b) && k == ka * kb
    ensures Curve25519(a, Curve25519(b, point)) == ToLE(U(Times(k, p)), 32)
  {
    hide U, OnCurve, Times, AdditionAssociates, PIsPrime, Residue, LE, ToLE, Pow2, Curve25519;
    var q := Times(kb, p);
    Curve25519Meaning(b, point, p);
    TimesMul(ka, kb, k, p);
    TimesOnCurve(kb, p);
    if q == ZERO {
      ZeroU();
      Curve25519Zero(a);
      TimesZero(ka);
    } else {
      ReadCoordinate(U(q));
      Curve25519Meaning(a, ToLE(U(q), 32), q);
    }
  }

  /** Two parties who apply their scalars one after the other, in either order, end with the same
      bytes. */
  lemma SharedSecret(a: seq<byte>, b: seq<byte>, point: seq<byte>, p: Point)
    requires PIsPrime() && AdditionAssociates() && OnCurve(p) && p != ZERO
    requires |a| == 32 && |b| == 32 && |point| == 32 && Residue(LE(point) % Fe25519.W5) == U(p)
    ensures Curve25519(a, Curve25519(b, point)) == Curve25519(b, Curve25519(a, point))
  {
    hide U, OnCurve, Times, AdditionAssociates, PIsPrime, Residue, LE, ToLE, Pow2, Curve25519;
    var ka, kb := Applied(a), Applied(b);
    var k := Product(ka, kb);
    AppliedTwice(a, b, point, p, ka, kb, k);
    AppliedTwice(b, a, point, p, kb, ka, k);
  }

  lemma Product(x: nat, y: nat) returns (k: nat)
    ensures k == x * y == y * x
  {
    MulLe(0, x, y);
    k := x * y;
  }

  // ---------- the base point u = 9 ----------

  /** The constant of curve25519_base. */
  const NINE: seq<byte> := [9] + Repeat(0, 31)

  lemma BaseCoordinate()
    requires PIsPrime()
    ensures U(B) == 9 && B != ZERO
  {
    PValue();
    hide Residue, FMul, FInv, FAdd, FSub, PIsPrime;
    assert 9 * (1 - BY) - (1 + BY) == (-8) * P;
    var n, h := FAdd(1, BY), FSub(1, BY);
    NineTimes(BY, n, h);
    assert h != 0 by { LargeOrdinate(h); }
    InverseLaw(h);
    // n / h = (9 h) / h = 9
    FMulAssoc(9, h, FInv(h));
    FMulOne(9);
  }

  lemma NineTimes(y: Fp, n: Fp, h: Fp)
    requires 9 * (1 - y) - (1 + y) == (-8) * P && n == FAdd(1, y) && h == FSub(1, y) && 9 < P
    ensures FMul(9, h) == n
  {
    hide FMul, FAdd, FSub, Residue, Eq;
    OpsEq(1, y);
    OpsEq(9, h);
    EqRefl(9);
    EqOp(9, 9, h, 1 - y);
    EqIntro(9 * (1 - y), 1 + y, -8);
    EqSym(n, 1 + y);
    EqTrans(FMul(9, h), 9 * h, 9 * (1 - y));
    EqTrans(FMul(9, h), 9 * (1 - y), 1 + y);
    EqTrans(FMul(9, h), 1 + y, n);
    EqCanonical(FMul(9, h), n);
  }

  lemma LargeOrdinate(h: Fp)
    requires h == FSub(1, BY)
    ensures h != 0
  {
    PValue();
    hide FSub, Residue, Eq;
    OpsEq(1, BY);
    if h == 0 {
      EqSym(h, 1 - BY);
      EqRefl(BY);
      EqOp(1 - BY, 0, BY, BY);
      EqCanonical(1, BY);
      assert false;
    }
  }

  lemma NineBytes()
    ensures |NINE| == 32 && Residue(LE(NINE) % Fe25519.W5) == 9
  {
    PValue();
    assert NINE[1..] == Repeat(0, 31);
    ZeroBytes(31);
    assert LE(NINE) == 9;
    hide LE, Residue, Repeat, NINE;
    OwnResidue(9);
  }

  lemma {:induction false} ZeroBytes(n: nat)
    ensures LE(Repeat(0, n)) == 0
  {
    if n > 0 {
      ZeroBytes(n - 1);
      assert Repeat(0, n)[1..] == Repeat(0, n - 1);
    }
  }

  /** The key exchange: from the public values that curve25519_base makes, both ends compute the
      same secret. */
  lemma KeyAgreement(a: seq<byte>, b: seq<byte>)
    requires PIsPrime() && AdditionAssociates() && |a| == 32 && |b| == 32
    ensures Curve25519(a, Curve25519(b, NINE)) == Curve25519(b, Curve25519(a, NINE))
  {
    hide U, OnCurve, AdditionAssociates, PIsPrime, Residue, LE, Curve25519, NINE, B;
    BaseCoordinate();
    NineBytes();
    BaseOnCurve();
    SharedSecret(a, b, NINE, B);
  }
}
