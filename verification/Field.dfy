/** The prime field GF(2^255 - 19) as residues, the reference the limb code is proved
    against. */
module Field {
  import opened Arithmetic

  const LIMB_BITS: nat := 51
  const LIMB_COUNT: nat := 5

  type Modulus = m: nat | 2 < m witness 3

  /** p = 2^255 - 19.  PValue gives its digits; most proofs do without them. */
  const P: Modulus := (PowerOf255(); Pow2(LIMB_BITS * LIMB_COUNT) - 19)

  lemma PowerOf255()
    ensures Pow2(LIMB_BITS * LIMB_COUNT)
      == 0x8000_0000_0000_0000_0000_0000_0000_0000_0000_0000_0000_0000_0000_0000_0000_0000
  {
    Pow2Values();
    hide Pow2;
  }

  lemma PValue()
    ensures P == 0x7fff_ffff_ffff_ffff_ffff_ffff_ffff_ffff_ffff_ffff_ffff_ffff_ffff_ffff_ffff_ffed
  {
    PowerOf255();
    hide Pow2;
  }

  type Fp = x: nat | x < P

  /** The field element of an integer, by adding and subtracting p.  ResidueIs says that this
      is `v % P`; the recursive form keeps the division out of the proofs that do without it. */
  function Residue(v: int): Fp
    decreases if v < 0 then P - v else v
  {
    if v < 0 then Residue(v + P)
    else if v < P then v
    else Residue(v - P)
  }

  lemma {:induction false} ResidueIs(v: int)
    ensures Residue(v) == v % P
    decreases if v < 0 then P - v else v
  {
    if v < 0 {
      ResidueIs(v + P);
      ModShift(v, P);
    } else if v < P {
      DivModUnique(v, P, 0, v);
    } else {
      ResidueIs(v - P);
      ModShift(v - P, P);
    }
  }

  lemma ModShift(v: int, m: nat)
    requires 0 < m
    ensures (v + m) % m == v % m
  {
    DivMod(v, m);
    MulAdd(v / m, 1, m);
    DivModUnique(v + m, m, v / m + 1, v % m);
  }

  function FAdd(x: int, y: int): Fp { Residue(x + y) }

  function FSub(x: int, y: int): Fp { Residue(x - y) }

  function FMul(x: int, y: int): Fp { Residue(x * y) }

  function FNeg(x: int): Fp { FSub(0, x) }

  /** x to the e by repeated multiplication, the definition `fe25519_pow` must meet. */
  function FPow(x: int, e: nat): Fp {
    if e == 0 then 1 else FMul(x, FPow(x, e - 1))
  }

  function FInv(x: int): Fp { FPow(x, P - 2) }

  /** Congruence modulo P. */
  ghost predicate Eq(a: int, b: int) { Residue(a) == Residue(b) }

  lemma EqCong(a: int, b: int)
    ensures Eq(a, b) <==> Cong(a, b, P)
  {
    ResidueIs(a);
    ResidueIs(b);
    CongIff(a, b, P);
    hide Cong, Residue;
  }

  lemma EqOp(a: int, a': int, b: int, b': int)
    requires Eq(a, a') && Eq(b, b')
    ensures Eq(a + b, a' + b') && Eq(a - b, a' - b') && Eq(a * b, a' * b')
  {
    hide Eq, Cong, Residue;
    EqCong(a, a');
    EqCong(b, b');
    CongAdd(a, a', b, b', P);
    CongMul(a, a', b, b', P);
    EqCong(a + b, a' + b');
    EqCong(a - b, a' - b');
    EqCong(a * b, a' * b');
  }

  /** Congruence by exhibiting the multiple. */
  lemma EqIntro(a: int, b: int, k: int)
    requires a == b + k * P
    ensures Eq(a, b)
  {
    CongIntro(a, b, k, P);
    hide *;
    EqCong(a, b);
  }

  /** Multiples of p through 2^255. */
  lemma MultipleOfP(k: int)
    ensures k * P == 0x8000_0000_0000_0000_0000_0000_0000_0000_0000_0000_0000_0000_0000_0000_0000_0000 * k - 19 * k
  {
    PValue();
  }

  lemma EqRefl(a: int)
    ensures Eq(a, a)
  {
  }

  lemma EqSym(a: int, b: int)
    requires Eq(a, b)
    ensures Eq(b, a)
  {
  }

  lemma EqTrans(a: int, b: int, c: int)
    requires Eq(a, b) && Eq(b, c)
    ensures Eq(a, c)
  {
  }

  /** Field elements are their own residues. */
  lemma OwnResidue(x: Fp)
    ensures Residue(x) == x
  {
  }

  /** A residue is congruent to its number. */
  lemma EqResidue(a: int)
    ensures Eq(Residue(a), a) && Eq(a, Residue(a))
  {
    OwnResidue(Residue(a));
    hide Residue;
  }

  lemma EqSame(a: int, b: int)
    ensures Eq(a, b) <==> Residue(a) == Residue(b)
  {
  }

  lemma EqIff(a: int, b: int)
    ensures Eq(a, b) <==> a % P == b % P
  {
    ResidueIs(a);
    ResidueIs(b);
    hide Residue;
  }

  /** Residues are canonical: congruent field elements are the same element. */
  lemma EqCanonical(a: int, b: int)
    requires 0 <= a < P && 0 <= b < P && Eq(a, b)
    ensures a == b
  {
    OwnResidue(a);
    OwnResidue(b);
    hide Residue;
  }

  /** The field operations do not distinguish congruent arguments. */
  lemma OpsRespect(a: int, a': int, b: int, b': int)
    requires Eq(a, a') && Eq(b, b')
    ensures FAdd(a, b) == FAdd(a', b') && FSub(a, b) == FSub(a', b') && FMul(a, b) == FMul(a', b')
  {
    hide Residue;
    EqOp(a, a', b, b');
  }

  /** The field operations are the integer operations up to congruence. */
  lemma OpsEq(x: int, y: int)
    ensures Eq(FAdd(x, y), x + y) && Eq(FSub(x, y), x - y) && Eq(FMul(x, y), x * y)
  {
    hide *;
    EqOfAdd(x, y);
    EqOfSub(x, y);
    EqOfMul(x, y);
  }

  lemma EqOfAdd(x: int, y: int)
    ensures Eq(FAdd(x, y), x + y)
  {
    EqResidue(x + y);
    hide Residue, Eq;
  }

  lemma EqOfSub(x: int, y: int)
    ensures Eq(FSub(x, y), x - y)
  {
    EqResidue(x - y);
    hide Residue, Eq;
  }

  lemma EqOfMul(x: int, y: int)
    ensures Eq(FMul(x, y), x * y)
  {
    EqResidue(x * y);
    hide Residue, Eq;
  }

  /** A product by its value. */
  lemma MulIs(x: int, y: int, r: Fp)
    requires (x * y) % P == r
    ensures FMul(x, y) == r
  {
    ResidueIs(x * y);
    hide Residue;
  }

  lemma NegIs(x: int)
    requires 0 <= x < P
    ensures FNeg(x) == if x == 0 then 0 else P - x
  {
    if x == 0 {
      OwnResidue(0);
    } else {
      assert Residue(-x) == Residue(P - x);
      OwnResidue(P - x);
    }
  }

  // ---------- exponentiation ----------

  lemma FMulAssoc(x: int, y: int, z: int)
    ensures FMul(FMul(x, y), z) == FMul(x, FMul(y, z))
  {
    hide *;
    OpsEq(x, y);
    OpsEq(y, z);
    EqRefl(x);
    EqRefl(z);
    OpsRespect(FMul(x, y), x * y, z, z);
    OpsRespect(x, x, FMul(y, z), y * z);
    FMulFlat(x, y, z);
  }

  lemma FMulFlat(x: int, y: int, z: int)
    ensures FMul(x * y, z) == FMul(x, y * z)
  {
    MulAssoc(x, y, z);
  }

  lemma FMulComm(x: int, y: int)
    ensures FMul(x, y) == FMul(y, x)
  {
  }

  lemma {:induction false} FPowAdd(x: int, a: nat, b: nat)
    ensures FPow(x, a + b) == FMul(FPow(x, a), FPow(x, b))
  {
    if a == 0 {
      assert FMul(1, FPow(x, b)) == FPow(x, b) by { FMulOne(FPow(x, b)); }
    } else {
      hide FMul;
      FPowAdd(x, a - 1, b);
      FMulAssoc(x, FPow(x, a - 1), FPow(x, b));
    }
  }

  lemma FMulOne(x: Fp)
    ensures FMul(1, x) == x && FMul(x, 1) == x
  {
    OwnResidue(x);
    hide Residue;
  }

  lemma {:induction false} FPowMul(x: int, a: nat, b: nat)
    ensures FPow(FPow(x, a), b) == FPow(x, a * b)
  {
    if b == 0 {
    } else {
      hide FMul;
      FPowMul(x, a, b - 1);
      assert a * b == a + a * (b - 1);
      FPowAdd(x, a, a * (b - 1));
    }
  }

  lemma {:induction false} FPowProduct(x: int, y: int, e: nat)
    ensures FPow(FMul(x, y), e) == FMul(FPow(x, e), FPow(y, e))
  {
    if e == 0 {
      FMulOne(1);
    } else {
      hide FMul;
      FPowProduct(x, y, e - 1);
      FMulExchange(x, y, FPow(x, e - 1), FPow(y, e - 1));
    }
  }

  lemma FMulExchange(x: int, y: int, u: int, v: int)
    ensures FMul(FMul(x, y), FMul(u, v)) == FMul(FMul(x, u), FMul(y, v))
  {
    hide FMul;
    FMulAssoc(x, y, FMul(u, v));
    FMulAssoc(y, u, v);
    FMulComm(y, u);
    FMulAssoc(u, y, v);
    FMulAssoc(x, u, FMul(y, v));
  }
}
