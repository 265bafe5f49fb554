/** Bitwise operations on nonnegative numbers, with the laws the branch-free code uses. */
module Bits {
  import opened Arithmetic

  // exclusive-or, and, or: one bit at a time
  function Xor(x: nat, y: nat): nat {
    if x == 0 && y == 0 then 0 else (x + y) % 2 + 2 * Xor(x / 2, y / 2)
  }

  function And(x: nat, y: nat): nat {
    if x == 0 || y == 0 then 0 else (if x % 2 == 1 && y % 2 == 1 then 1 else 0) + 2 * And(x / 2, y / 2)
  }

  function Ior(x: nat, y: nat): nat {
    if x == 0 && y == 0 then 0 else (if x % 2 == 1 || y % 2 == 1 then 1 else 0) + 2 * Ior(x / 2, y / 2)
  }

  /** An or is zero exactly when both words are. */
  lemma {:induction false} IorZero(x: nat, y: nat)
    ensures Ior(x, y) == 0 <==> x == 0 && y == 0
    decreases x + y
  {
    if x != 0 || y != 0 { IorZero(x / 2, y / 2); }
  }

  lemma {:induction false} IorBelow(x: nat, y: nat, n: nat)
    requires x < Pow2(n) && y < Pow2(n)
    ensures Ior(x, y) < Pow2(n)
  {
    if x != 0 || y != 0 { IorBelow(x / 2, y / 2, n - 1); }
  }

  /** An exclusive-or is zero exactly when the words are equal. */
  lemma {:induction false} XorIsZero(x: nat, y: nat)
    ensures Xor(x, y) == 0 <==> x == y
    decreases x + y
  {
    if x != 0 || y != 0 { XorIsZero(x / 2, y / 2); }
  }

  lemma {:induction false} XorComm(x: nat, y: nat)
    ensures Xor(x, y) == Xor(y, x)
    decreases x + y
  {
    if x != 0 || y != 0 { XorComm(x / 2, y / 2); }
  }

  lemma {:induction false} XorZero(x: nat)
    ensures Xor(x, 0) == x
  {
    if x != 0 { XorZero(x / 2); }
  }

  lemma {:induction false} XorCancels(x: nat, y: nat)
    ensures Xor(x, Xor(x, y)) == y
    decreases x + y
  {
    if x == 0 && y == 0 {
    } else {
      XorCancels(x / 2, y / 2);
      XorOnce(x, y);
      XorOnce(x, Xor(x, y));
      var r, z := Xor(x / 2, y / 2), Xor(x, y);
      hide Xor;
      assert z / 2 == r && z % 2 == (x + y) % 2;
      ParityCancels(x, y, z);
    }
  }

  lemma ParityCancels(x: nat, y: nat, z: nat)
    requires z % 2 == (x + y) % 2
    ensures (x + z) % 2 == y % 2
  {
  }

  lemma XorOnce(x: nat, z: nat)
    ensures Xor(x, z) == (x + z) % 2 + 2 * Xor(x / 2, z / 2)
  {
  }

  lemma {:induction false} XorBelow(x: nat, y: nat, n: nat)
    requires x < Pow2(n) && y < Pow2(n)
    ensures Xor(x, y) < Pow2(n)
  {
    if x != 0 || y != 0 { XorBelow(x / 2, y / 2, n - 1); }
  }

  lemma {:induction false} AndOnes(v: nat, n: nat)
    requires v < Pow2(n)
    ensures And(Pow2(n) - 1, v) == v
  {
    if v != 0 {
      AndOnes(v / 2, n - 1);
      assert (Pow2(n) - 1) / 2 == Pow2(n - 1) - 1 && (Pow2(n) - 1) % 2 == 1;
    }
  }
}
