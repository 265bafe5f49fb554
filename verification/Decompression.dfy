/** What compression and decompression mean on the curve, given that p is prime. */
module Decompression {
  import opened Arithmetic
  import opened Options
  import opened Bytes
  import opened Field
  import opened Fe25519
  import opened FeBytes
  import opened PrimeField
  import opened Edwards
  import opened Extended
  import opened GeCodec

  /** The constants ed_init computes are the curve's d and a square root of -1. */
  lemma EdConstants()
    requires PIsPrime()
    ensures FMul(FNeg(121665), FInv(121666)) == D == D_VALUE
    ensures var i := FPow(2, QUARTER); FMul(i, i) == P - 1
  {
    SqrtMinusOne();
    DValue();
    hide FInv, FMul, FPow, Residue;
  }

  // ---------- square roots ----------

  /** (c i)^2 = -c^2 when i^2 = -1. */
  lemma TimesRootOfMinusOne(c: Fp, i: Fp, x2: Fp)
    requires FMul(i, i) == P - 1 && FMul(c, c) == FNeg(x2)
    ensures FMul(FMul(c, i), FMul(c, i)) == x2
  {
    FMulExchange(c, i, c, i);
    MinusOneTimes(FNeg(x2));
    DoubleNeg(x2);
    hide FMul, FNeg, Residue;
  }

  lemma MinusOneTimes(x: Fp)
    ensures FMul(x, P - 1) == FNeg(x)
  {
    hide FMul, FNeg, Residue;
    FMulComm(P - 1, x);
    FNegMul(1, x);
    FMulOne(x);
    NegIs(1);
  }

  lemma DoubleNeg(x: Fp)
    ensures FNeg(FNeg(x)) == x
  {
    NegIs(x);
    NegIs(FNeg(x));
    hide FNeg;
  }

  lemma {:induction false} ZeroPower(e: nat)
    requires e > 0
    ensures FPow(0, e) == 0
  {
    assert FPow(0, e) == FMul(0, FPow(0, e - 1));
    OwnResidue(0);
    hide Residue, FPow;
  }

  /** Every square gets a root: for x2 = r^2 the candidate squared is r^2 r^((p-1)/2) = +-x2. */
  lemma CandidateOfSquare(r: Fp)
    requires PIsPrime()
    ensures var x2 := FMul(r, r); var c := FPow(x2, (P + 3) / 8);
      FMul(c, c) == x2 || FMul(c, c) == FNeg(x2)
  {
    hide FMul, FPow, FNeg, Residue;
    var x2, e := FMul(r, r), (P + 3) / 8;
    var c := FPow(x2, e);
    if r == 0 {
      ZeroSquared();
      Eighth();
      ZeroPower(e);
    } else {
      Squared(r);
      FermatField(r);
      Eighth();
      FPowMul(r, 2, e + e);
      FPowAdd(x2, e, e);
      FPowAdd(r, 2, HALF);
      FPowAdd(r, HALF, HALF);
      var s := FPow(r, HALF);
      assert FMul(c, c) == FMul(x2, s) && FMul(s, s) == 1;
      RootsOfOne(s);
      FMulOne(x2);
      MinusOneTimes(x2);
    }
  }

  lemma Eighth()
    ensures var e := (P + 3) / 8; e > 0 && 2 * (e + e) == 2 + HALF && HALF + HALF == P - 1
  {
    PValue();
  }

  lemma RootsOfOne(s: Fp)
    requires PIsPrime() && FMul(s, s) == 1
    ensures s == 1 || s == P - 1
  {
    hide FMul, Eq, Residue;
    EqOfMul(s, s);
    EqSym(1, s as int * s as int);
    SquareRoots(s, 1);
    EqualOrOpposite(s, 1);
  }

  /** SquareRoot answers exactly for squares, and what it answers squares back. */
  lemma SquareRootMeaning(x2: Fp, i: Fp)
    requires PIsPrime() && FMul(i, i) == P - 1
    ensures SquareRoot(x2, i).Some? <==> exists r: Fp :: FMul(r, r) == x2
    ensures SquareRoot(x2, i).Some? ==> FMul(SquareRoot(x2, i).value, SquareRoot(x2, i).value) == x2
  {
    var c := FPow(x2, (P + 3) / 8);
    if SquareRoot(x2, i).Some? && FMul(c, c) != x2 {
      TimesRootOfMinusOne(c, i, x2);
    }
    if r: Fp :| FMul(r, r) == x2 {
      CandidateOfSquare(r);
    }
  }

  // ---------- the curve equation solved for x^2 ----------

  /** d y^2 + 1 never vanishes: -1 / d is not a square. */
  lemma DenominatorNonzero(y: Fp)
    requires PIsPrime()
    ensures FAdd(FMul(FMul(y, y), D), 1) != 0
  {
    var w: int := D * (y as int * y as int);
    OpsEq(y, y);
    EqRefl(D);
    EqRefl(1);
    FMulEq(FMul(y, y), y as int * y as int, D, D);
    FSubEq(FMul(FMul(y, y), D), w, 1, 1);
    hide FMul, FAdd, Residue;
    if FAdd(FMul(FMul(y, y), D), 1) == 0 {
      EqSym(0, w + 1);
      assert Eq(-1, w) by { EqRefl(1); EqOp(w + 1, 0, 1, 1); EqSym(w, -1); }
      MinusOneOverD(y, w);
      assert false;
    }
  }

  lemma MinusOneOverD(y: int, w: int)
    requires PIsPrime() && w == D * (y * y)
    ensures !Eq(-1, w)
  {
    hide Eq, FMul, Residue;
    if Eq(-1, w) {
      CurveConstant();
      RootOfMinusOne(I);
      var t := RootFromMinusOne(y, w, I, D);
      DIsNonresidue(t);
      assert false;
    }
  }

  lemma RootFromMinusOne(y: int, w: int, i: int, d: int) returns (t: int)
    requires PIsPrime() && w == d * (y * y) && Eq(-1, w) && Eq(i * i, -1)
    ensures Eq(t * t, d)
  {
    hide *;
    NonzeroRoot(y, w, d);
    EqTrans(i * i, -1, w);
    t := SquareContradiction(i, y, d);
  }

  lemma NonzeroRoot(y: int, w: int, d: int)
    requires w == d * (y * y) && Eq(-1, w)
    ensures !Eq(y, 0)
  {
    if Eq(y, 0) {
      ZeroTimes(y, y);
      ZeroTimes(y * y, d);
      EqTrans(-1, w, 0);
      assert false;
    }
  }

  /** x^2 = (y^2 - 1) / (d y^2 + 1) is the curve equation. */
  lemma XSquaredMeaning(x: Fp, y: Fp)
    requires PIsPrime()
    ensures FMul(x, x) == XSquared(y, D) <==> Curve(x, y)
  {
    var y2 := FMul(y, y);
    var u, v := FSub(y2, 1), FAdd(FMul(y2, D), 1);
    DenominatorNonzero(y);
    InverseLaw(v);
    SolveQuotient(FMul(x, x), u, v);
    ClearedCurve(x, y, D, y2, u, v);
    hide FMul, FSub, FAdd, FInv, Curve, Residue;
  }

  lemma SolveQuotient(s: Fp, u: Fp, v: Fp)
    requires PIsPrime() && v != 0
    ensures s == FMul(u, FInv(v)) <==> FMul(s, v) == u
  {
    InverseLaw(v);
    var w := FInv(v);
    hide FInv, Residue;
    FMulAssoc(s, v, w);
    FMulAssoc(u, w, v);
    FMulComm(v, w);
    FMulOne(s);
    FMulOne(u);
    hide FMul, Residue;
  }

  lemma ClearedCurve(x: Fp, y: Fp, d: Fp, y2: Fp, u: Fp, v: Fp)
    requires y2 == FMul(y, y) && u == FSub(y2, 1) && v == FAdd(FMul(y2, d), 1)
    ensures FMul(FMul(x, x), v) == u <==> CurveEq(x, y, d)
  {
    var xx, yy: int := x as int * x as int, y as int * y as int;
    hide FMul, FSub, FAdd, Residue, Eq;
    OpsEq(x, x);
    OpsEq(y, y);
    EqRefl(d);
    EqRefl(1);
    FMulEq(y2, yy, d, d);
    FSubEq(FMul(y2, d), yy * d, 1, 1);
    FSubEq(y2, yy, 1, 1);
    FMulEq(FMul(x, x), xx, v, yy * d + 1);
    ClearedCurveInt(FMul(FMul(x, x), v), u, xx, yy, d);
  }

  lemma ClearedCurveInt(l: Fp, u: Fp, a: int, b: int, d: int)
    requires Eq(l, a * (b * d + 1)) && Eq(u, b - 1)
    ensures l == u <==> Eq(b - a, 1 + d * a * b)
  {
    hide *;
    Group(d, a, b);
    ClearedRight(a, b, d);
    var r := d * (a * b) + a;
    // b - a - (1 + d a b) = (b - 1) - r
    if l == u {
      EqSym(u, b - 1);
      EqTrans(b - 1, l, r);
      EqDifference(b - a, 1 + d * a * b, b - 1, r);
    }
    if Eq(b - a, 1 + d * a * b) {
      EqDifference(b - 1, r, b - a, 1 + d * a * b);
      SameField(u, l, b - 1, r);
    }
  }

  lemma ClearedRight(a: int, b: int, d: int)
    ensures a * (b * d + 1) == d * (a * b) + a
  {
  }

  // ---------- decompression ----------

  /** The y-coordinate a compressed string carries. */
  function YOf(b: seq<byte>): Fp
    requires |b| == 32
  {
    Residue(LE(b) % W5)
  }

  lemma NegParity(x: Fp)
    requires x != 0
    ensures FNeg(x) == P - x && FNeg(x) % 2 != x % 2 && FNeg(x) != 0
  {
    NegIs(x);
    hide FNeg;
  }

  lemma SquareOfNeg(x: Fp)
    ensures FMul(FNeg(x), FNeg(x)) == FMul(x, x)
  {
    FNegMul(x, FNeg(x));
    FMulComm(x, FNeg(x));
    FNegMul(x, x);
    DoubleNeg(FMul(x, x));
    hide FMul, FNeg, Residue;
  }

  /** Two roots with the same parity are the same. */
  lemma RootByParity(x: Fp, r: Fp)
    requires PIsPrime() && FMul(x, x) == FMul(r, r) && x % 2 == r % 2
    ensures x == r
  {
    hide FMul, Eq, Residue;
    EqOfMul(x, x);
    EqOfMul(r, r);
    EqSym(FMul(x, x), x as int * x as int);
    EqTrans(x as int * x as int, FMul(x, x), r as int * r as int);
    SquareRoots(x, r);
    EqualOrOpposite(x, r);
  }

  lemma EqualOrOpposite(x: Fp, r: Fp)
    requires Eq(x, r) || Eq(x, -(r as int))
    ensures x == r || x == P - r
  {
    hide Eq, Residue, FNeg;
    NegIs(r);
    NegEq(r);
    if Eq(x, r) {
      EqCanonical(x, r);
    } else {
      EqTrans(x, -(r as int), FNeg(r));
      EqCanonical(x, FNeg(r));
    }
  }

  lemma NegEq(r: Fp)
    ensures Eq(-(r as int), FNeg(r))
  {
    EqOfSub(0, r);
    hide Residue, Eq;
    EqSym(FSub(0, r), 0 - r);
  }

  /** A decompressed string is the curve point with that y and with the parity of x in the
      top bit. */
  lemma DecompressSound(b: seq<byte>, i: Fp)
    requires PIsPrime() && |b| == 32 && FMul(i, i) == P - 1
    requires Decompress(b, D, i).Some?
    ensures var q := Decompress(b, D, i).value;
      Represents(q, Point(q.X, q.Y)) && q.Z == 1 && q.Y == Residue(LE(b) % W5) && q.X % 2 == b[31] as nat / 0x80
  {
    var y := YOf(b);
    SquareRootMeaning(XSquared(y, D), i);
    var x := SquareRoot(XSquared(y, D), i).value;
    SquareOfNeg(x);
    if x != 0 { NegParity(x); }
    var q := Decompress(b, D, i).value;
    hide FMul, FNeg, SquareRoot, Residue;
    XSquaredMeaning(q.X, y);
    FMulOne(q.X);
    FMulOne(y);
    FMulOne(FMul(q.X, y));
  }

  /** Every curve point with that y and sign is found. */
  lemma DecompressComplete(b: seq<byte>, i: Fp, p: Point)
    requires PIsPrime() && |b| == 32 && FMul(i, i) == P - 1
    requires OnCurve(p) && p.y == YOf(b) && p.x % 2 == SignBit(b)
    ensures Decompress(b, D, i) == Some(Ext(p.x, p.y, 1, FMul(p.x, p.y)))
  {
    hide SquareRoot, XSquared, Curve, FMul, FNeg, SignBit, LE, Residue;
    XSquaredMeaning(p.x, p.y);
    SquareRootMeaning(XSquared(p.y, D), i);
    var x := SquareRoot(XSquared(p.y, D), i).value;
    ChosenRoot(x, p.x);
  }

  /** The parity rule picks p's x from either root. */
  lemma ChosenRoot(x: Fp, r: Fp)
    requires PIsPrime() && FMul(x, x) == FMul(r, r)
    ensures x == 0 ==> r == 0
    ensures (if x % 2 != r % 2 then FNeg(x) else x) == r
  {
    if x == 0 {
      ZeroSquared();
      hide FMul, FNeg, Residue;
      NegIs(0);
      ZeroRoot(r);
    } else {
      SquareOfNeg(x);
      NegParity(x);
      hide FMul, FNeg, Residue;
      RootByParity(if x % 2 != r % 2 then FNeg(x) else x, r);
    }
  }

  lemma ZeroRoot(r: Fp)
    requires PIsPrime() && FMul(r, r) == 0
    ensures r == 0
  {
    OpsEq(r, r);
    if r != 0 {
      NotZero(r);
      ProductNonzero(r, r);
      EqSym(0, r as int * r as int);
      assert false;
    }
  }

  /** ge_frombytes accepts exactly the strings whose y and sign belong to a curve point. */
  lemma DecompressIff(b: seq<byte>, i: Fp)
    requires PIsPrime() && |b| == 32 && FMul(i, i) == P - 1
    ensures Decompress(b, D, i).Some? <==>
      exists x: Fp :: Curve(x, Residue(LE(b) % W5)) && x % 2 == b[31] as nat / 0x80
  {
    hide LE, Residue, Decompress, Curve, FMul, PIsPrime;
    var y, sign := Residue(LE(b) % W5), b[31] as nat / 0x80;
    if Decompress(b, D, i).Some? {
      DecompressSound(b, i);
      var q := Decompress(b, D, i).value;
      assert OnCurve(Point(q.X, q.Y));
      assert Curve(q.X, y) && q.X % 2 == sign;
    }
    if x: Fp :| Curve(x, y) && x % 2 == sign {
      DecompressComplete(b, i, Point(x, y));
    }
  }

  /** A string is its low 255 bits and its sign bit. */
  lemma SplitSign(b: seq<byte>)
    requires |b| == 32
    ensures LE(b) == LE(b) % W5 + W5 * SignBit(b)
  {
    LastByte(b);
    hide LE;
    DivModUnique(LE(b), W5, SignBit(b), LE(b[..31]) + W248 * (b[31] % 0x80));
  }

  lemma CompressParts(p: Point)
    ensures YOf(Compress(p)) == p.y && SignBit(Compress(p)) == p.x % 2
    ensures LE(Compress(p)) == p.y + W5 * (p.x % 2)
  {
    hide LE, ToLE, Pow2, SignBit;
    var v := p.y + W5 * (p.x % 2);
    PValue();
    FieldFits(v, 32);
    LEToLE(v, 32);
    SplitSign(Compress(p));
    SameSplit(v, p.y, p.x % 2, SignBit(Compress(p)));
  }

  lemma SameSplit(v: nat, y: Fp, s: nat, t: nat)
    requires v == y + W5 * s && v == v % W5 + W5 * t && s <= 1
    ensures s == t && Residue(v % W5) == y
  {
    PValue();
    DivModUnique(v, W5, s, y);
    OwnResidue(y);
    hide Residue;
  }

  /** Point to bytes to point is the identity on the curve. */
  lemma PointRoundTrip(p: Point, i: Fp)
    requires PIsPrime() && OnCurve(p) && FMul(i, i) == P - 1
    ensures Decompress(Compress(p), D, i) == Some(Ext(p.x, p.y, 1, FMul(p.x, p.y)))
  {
    CompressParts(p);
    hide Compress, Decompress, OnCurve, FMul, Residue;
    DecompressComplete(Compress(p), i, p);
  }

  /** Bytes to point to bytes: a string the source accepts is reproduced exactly when its y is
      below p.  The source does not make that comparison. */
  lemma BytesRoundTrip(b: seq<byte>, i: Fp)
    requires PIsPrime() && |b| == 32 && FMul(i, i) == P - 1
    requires Decompress(b, D, i).Some?
    ensures Compress(Affine(Decompress(b, D, i).value)) == b <==> LE(b) % W5 < P
  {
    DecompressSound(b, i);
    var q := Decompress(b, D, i).value;
    var p := Point(q.X, q.Y);
    hide Decompress, FMul, Represents, Residue;
    AffineMeaning(q, p);
    CompressParts(p);
    SplitSign(b);
    hide Affine, Compress, LE, SignBit;
    SameWhenBelow(LE(b) % W5);
    if LE(b) % W5 < P {
      LEInjective(Compress(p), b);
    }
  }

  lemma SameWhenBelow(v: nat)
    ensures Residue(v) == v <==> v < P
  {
  }

  /** An accepted string that is not reproduced: y = p + 1 decodes to the identity (0, 1). */
  lemma NonCanonicalAccepted(i: Fp)
    requires PIsPrime() && FMul(i, i) == P - 1
    ensures var b := ToLE(P + 1, 32);
      && Decompress(b, D, i) == Some(IDENTITY)
      && Compress(Affine(IDENTITY)) != b
  {
    hide LE, ToLE, Pow2, SignBit, Decompress, Compress, Affine, FMul, OnCurve, Residue;
    var b := ToLE(P + 1, 32);
    PValue();
    FieldFits(P + 1, 32);
    LEToLE(P + 1, 32);
    SplitSign(b);
    EqIntro(P + 1, 1, 1);
    OwnResidue(1);
    assert YOf(b) == 1 && SignBit(b) == 0 && LE(b) % W5 == P + 1;
    ZeroOnCurve();
    FMulOne(0);
    DecompressComplete(b, i, ZERO);
    BytesRoundTrip(b, i);
  }
}
