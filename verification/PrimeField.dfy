/** What the primality of p = 2^255 - 19 gives: inverses, no zero divisors, square roots of
    one, and the quadratic characters of 2, -1 and the curve constant d. */
module PrimeField {
  import opened Arithmetic
  import opened Fermat
  import opened Field

  /** The number-theoretic hypothesis carried by every theorem that needs it. */
  ghost predicate PIsPrime() { IsPrime(P) }

  /** FPow is the integer power up to congruence. */
  lemma {:induction false} FPowIsPower(x: int, e: nat)
    ensures Eq(FPow(x, e), Power(x, e))
  {
    if e == 0 {
      EqRefl(1);
    } else {
      FPowIsPower(x, e - 1);
      var v, w := FPow(x, e - 1), Power(x, e - 1);
      OpsEq(x, v);
      EqRefl(x);
      hide Eq, FMul, FPow, Residue;
      EqOp(x, x, v, w);
      EqTrans(FMul(x, v), x * v, x * w);
    }
  }

  lemma FermatField(x: Fp)
    requires PIsPrime() && x != 0
    ensures FPow(x, P - 1) == 1
  {
    hide FPow, Power, Residue, Eq, Cong;
    NotZero(x);
    LittleTheorem(P, x);
    FPowIsPower(x, P - 1);
    EqCong(Power(x, P - 1), 1);
    EqTrans(FPow(x, P - 1), Power(x, P - 1), 1);
    EqCanonical(FPow(x, P - 1), 1);
  }

  lemma NotZero(x: Fp)
    requires x != 0
    ensures !Eq(x, 0) && !Cong(x, 0, P)
  {
    EqCong(x, 0);
    hide Cong;
  }

  /** x^(p-2) is the inverse of every nonzero x, and 0 for 0. */
  lemma InverseLaw(x: Fp)
    requires PIsPrime()
    ensures x != 0 ==> FMul(x, FInv(x)) == 1 && FInv(x) != 0
    ensures x == 0 ==> FInv(x) == 0
  {
    if x == 0 {
      assert FInv(0) == FMul(0, FPow(0, P - 3));
    } else {
      FermatField(x);
      assert FPow(x, P - 1) == FMul(x, FPow(x, P - 2));
      hide FPow, Residue;
      assert FMul(x, 0) == 0;
    }
  }

  lemma ProductNonzero(x: int, y: int)
    requires PIsPrime() && !Eq(x, 0) && !Eq(y, 0)
    ensures !Eq(x * y, 0)
  {
    hide Eq, Cong, Residue;
    EqCong(x, 0);
    EqCong(y, 0);
    EqCong(x * y, 0);
    if Eq(x * y, 0) { NoZeroDivisors(x, y, P); }
  }

  lemma CancelFactor(a: int, x: int, y: int)
    requires PIsPrime() && !Eq(a, 0) && Eq(a * x, a * y)
    ensures Eq(x, y)
  {
    hide Eq, Cong, Residue;
    EqCong(a, 0);
    EqCong(x, y);
    EqCong(a * x, a * y);
    Cancel(a, x, y, P);
  }

  /** x^2 = y^2 only for x = y or x = -y. */
  lemma SquareRoots(x: int, y: int)
    requires PIsPrime() && Eq(x * x, y * y)
    ensures Eq(x, y) || Eq(x, -y)
  {
    hide *;
    SquareDifference(x, y);
    EqShift(x * x, y * y);
    EqShift(x, y);
    EqShift(x, -y);
    if !Eq(x - y, 0) && !Eq(x + y, 0) { ProductNonzero(x - y, x + y); }
  }

  lemma SquareDifference(x: int, y: int)
    ensures (x - y) * (x + y) == x * x - y * y
  {
  }

  lemma EqShift(a: int, b: int)
    ensures Eq(a, b) <==> Eq(a - b, 0)
  {
    hide Eq, Residue;
    EqRefl(b);
    if Eq(a, b) { EqOp(a, b, b, b); }
    if Eq(a - b, 0) { EqOp(a - b, 0, b, b); }
  }

  // ---------- quadratic characters ----------

  const HALF: nat := (P - 1) / 2
  const QUARTER: nat := (P - 1) / 4

  /** A square root of -1. */
  const I: Fp := (PValue(); 0x2b832480_4fc1df0b_2b4d0099_3dfbd7a7_2f431806_ad2fe478_c4ee1b27_4a0ea0b0)

  lemma {:induction false} PowOne(e: nat)
    ensures FPow(1, e) == 1
  {
    hide FMul;
    if e > 0 {
      PowOne(e - 1);
      FMulOne(1);
    }
  }

  lemma MinusOneSquared()
    ensures FMul(P - 1, P - 1) == 1
  {
    PValue();
    hide FMul;
    assert (P - 1) * (P - 1) % P == 1;
    MulIs(P - 1, P - 1, 1);
  }

  lemma Halves()
    ensures P - 1 == 2 * HALF && HALF == 2 * QUARTER && QUARTER % 2 == 1
  {
    PValue();
  }

  /** (-1) to an odd power. */
  lemma MinusOneOdd(k: nat)
    ensures FPow(P - 1, 2 * k + 1) == P - 1
  {
    hide FMul, Residue;
    MinusOneSquared();
    Squared(P - 1);
    FPowMul(P - 1, 2, k);
    PowOne(k);
    assert FPow(P - 1, 2 * k + 1) == FMul(P - 1, FPow(P - 1, 2 * k));
    hide FPow, Residue;
    FMulOne(P - 1);
  }

  /** 2 is not a square: 2 = -i (1 + i)^2, so 2^((p-1)/2) = (-i)^((p-1)/2) = (-1)^((p-1)/4). */
  lemma TwoIsNonresidue()
    requires PIsPrime()
    ensures FPow(2, HALF) == P - 1
  {
    var j, s := MINUS_I, ONE_PLUS_I;
    EighthRoot();
    hide FMul, Residue;
    assert FPow(j, 2) == P - 1 by { Squared(j); }
    assert FPow(s, 2) == FMul(s, s) by { Squared(s); }
    FermatField(s);
    Halves();
    MinusOneOdd(QUARTER / 2);
    hide FPow, Residue;
    FPowProduct(j, FMul(s, s), HALF);
    FPowMul(j, 2, QUARTER);
    FPowMul(s, 2, HALF);
    FMulOne(P - 1);
  }

  const MINUS_I: Fp := (PValue(); 0x547cdb7f_b03e20f4_d4b2ff66_c2042858_d0bce7f9_52d01b87_3b11e4d8_b5f15f3d)
  const ONE_PLUS_I: Fp := (PValue(); 0x2b832480_4fc1df0b_2b4d0099_3dfbd7a7_2f431806_ad2fe478_c4ee1b27_4a0ea0b1)
  const TWO_I: Fp := (PValue(); 0x57064900_9f83be16_569a0132_7bf7af4e_5e86300d_5a5fc8f1_89dc364e_941d4160)

  lemma EighthRoot()
    ensures FMul(MINUS_I, FMul(ONE_PLUS_I, ONE_PLUS_I)) == 2 && FMul(MINUS_I, MINUS_I) == P - 1
    ensures ONE_PLUS_I != 0
  {
    PValue();
    hide FMul, Residue;
    MulIs(ONE_PLUS_I, ONE_PLUS_I, TWO_I);
    MulIs(MINUS_I, TWO_I, 2);
    MulIs(MINUS_I, MINUS_I, P - 1);
  }

  lemma Squared(x: Fp)
    ensures FPow(x, 2) == FMul(x, x)
  {
    assert FPow(x, 1) == FMul(x, FPow(x, 0)) == FMul(x, 1);
    FMulOne(x);
  }

  /** 2^((p-1)/4) is a square root of -1, as ed_init assumes. */
  lemma SqrtMinusOne()
    requires PIsPrime()
    ensures var r := FPow(2, QUARTER); FMul(r, r) == P - 1
  {
    hide FMul, FPow, Residue;
    TwoIsNonresidue();
    Halves();
    FPowAdd(2, QUARTER, QUARTER);
  }

  /** d = -121665 / 121666, the curve constant. */
  const D: Fp := FMul(FNeg(121665), FInv(121666))

  const D_VALUE: Fp := (PValue(); 0x52036cee_2b6ffe73_8cc74079_7779e898_00700a4d_4141d8ab_75eb4dca_135978a3)

  /** A square root of 2 d. */
  const ROOT_2D: Fp := (PValue(); 0x7aace324_fd0ac689_10cb40c6_304ab6b7_dbb63fe1_a1c15dad_5c477a1b_914298b0)

  const TWICE_D: Fp := (PValue(); 0x2406d9dc_56dffce7_198e80f2_eef3d130_00e0149a_8283b156_ebd69b94_26b2f159)

  lemma ConstantProducts()
    ensures 121666 < P && FMul(121666, D_VALUE) == FNeg(121665)
    ensures FMul(ROOT_2D, ROOT_2D) == FMul(2, D_VALUE)
    ensures FMul(I, I) == P - 1
  {
    PValue();
    hide FMul, FNeg, Residue;
    MulIs(121666, D_VALUE, P - 121665);
    NegIs(121665);
    MulIs(ROOT_2D, ROOT_2D, TWICE_D);
    MulIs(2, D_VALUE, TWICE_D);
    MulIs(I, I, P - 1);
  }

  /** The digits of d that RFC 8032 lists. */
  lemma DValue()
    requires PIsPrime()
    ensures D == D_VALUE && D != 0
  {
    assert D_VALUE != 0 by { PValue(); }
    ConstantProducts();
    InverseLaw(121666);
    hide FInv, FMul, FNeg, Residue, D_VALUE;
    var v := FInv(121666);
    FMulComm(121666, D_VALUE);
    FMulAssoc(D_VALUE, 121666, v);
    FMulOne(D_VALUE);
  }

  lemma CurveConstant()
    requires PIsPrime()
    ensures FMul(121666, D) == FNeg(121665)
    ensures FMul(ROOT_2D, ROOT_2D) == FMul(2, D)
    ensures FMul(I, I) == P - 1
  {
    DValue();
    ConstantProducts();
    hide *;
  }

  lemma ZeroSquared()
    ensures FMul(0, 0) == 0
  {
    OwnResidue(0);
    hide Residue;
  }

  lemma RootResidue(r: Fp, t: int, d: Fp)
    requires Eq(r, t) && Eq(t * t, d)
    ensures FMul(r, r) == d
  {
    hide *;
    OpsRespect(r, t, r, t);
    EqOfMul(t, t);
    EqTrans(FMul(t, t), t * t, d);
    EqCanonical(FMul(t, t), d);
  }

  /** d is not a square: 2 d is one and 2 is not. */
  lemma DIsNonresidue(t: int)
    requires PIsPrime()
    ensures !Eq(t * t, D)
  {
    hide FPow, FMul, Eq, Residue;
    if Eq(t * t, D) {
      var r, w: Fp := Residue(t), ROOT_2D;
      EqResidue(t);
      RootResidue(r, t, D);
      CurveConstant();
      ZeroSquared();
      DValue();
      assert w != 0 && r != 0;
      FermatField(w);
      FermatField(r);
      Squared(w);
      Squared(r);
      TwoIsNonresidue();
      Halves();
      FPowProduct(2, D, HALF);
      FPowMul(w, 2, HALF);
      FPowMul(r, 2, HALF);
      FMulOne(P - 1);
      assert false;
    }
  }
}
