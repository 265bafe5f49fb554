/** Fermat's little theorem, from the definition of a prime number. */
module Fermat {
  import opened Arithmetic

  ghost predicate IsPrime(p: nat) {
    2 <= p && forall d :: 2 <= d < p ==> p % d != 0
  }

  /** Modulo a prime, every a that is not a multiple has an inverse: p = q a + r gives
      r = -q a, and r is smaller. */
  lemma {:induction false} InverseBelow(a: nat, p: nat) returns (u: int)
    requires IsPrime(p) && 0 < a < p
    ensures Cong(a * u, 1, p)
    decreases a
  {
    if a == 1 {
      u := 1;
    } else {
      hide Cong;
      var q, r := p / a, p % a;
      PrimeRemainder(a, p);
      DivMod(p, a);
      hide IsPrime;
      var v := InverseBelow(r, p);
      u := -(q * v);
      InverseStep(a, q, r, v, p);
      CongIntro(a * u, r * v, -v, p);
      CongTrans(a * u, r * v, 1, p);
    }
  }

  lemma PrimeRemainder(a: nat, p: nat)
    requires IsPrime(p) && 1 < a < p
    ensures 0 < p % a < a
  {
  }

  lemma InverseStep(a: int, q: int, r: int, v: int, p: int)
    requires p == q * a + r
    ensures a * (-(q * v)) == r * v + (-v) * p
  {
    assert (q * a + r) * v == a * (q * v) + r * v;
    assert a * (-(q * v)) == -(a * (q * v));
  }

  lemma InverseExists(a: int, p: nat) returns (u: int)
    requires IsPrime(p) && !Cong(a, 0, p)
    ensures Cong(a * u, 1, p)
  {
    DivMod(a, p);
    CongMod(a, p);
    u := InverseBelow(a % p, p);
    CongMul(a, a % p, u, u, p);
    hide Cong;
    CongTrans(a * u, a % p * u, 1, p);
  }

  /** A prime that divides a product divides a factor. */
  lemma NoZeroDivisors(a: int, b: int, p: nat)
    requires IsPrime(p) && Cong(a * b, 0, p)
    ensures Cong(a, 0, p) || Cong(b, 0, p)
  {
    if !Cong(a, 0, p) {
      var u := InverseExists(a, p);
      CongMul(a * u, 1, b, b, p);
      CongMul(a * b, 0, u, u, p);
      hide Cong;
      assert (a * u) * b == (a * b) * u;
      CongSym((a * u) * b, 1 * b, p);
      CongTrans(b, (a * u) * b, 0, p);
    }
  }

  /** Cancelling a factor that is not a multiple of the prime. */
  lemma Cancel(a: int, x: int, y: int, p: nat)
    requires IsPrime(p) && !Cong(a, 0, p) && Cong(a * x, a * y, p)
    ensures Cong(x, y, p)
  {
    assert a * (x - y) == a * x - a * y;
    NoZeroDivisors(a, x - y, p);
  }

  // ---------- powers and binomial coefficients ----------

  function Power(x: int, e: nat): int {
    if e == 0 then 1 else x * Power(x, e - 1)
  }

  /** Pascal's triangle. */
  function Choose(n: nat, k: nat): nat {
    if k == 0 then 1 else if n == 0 then 0 else Choose(n - 1, k - 1) + Choose(n - 1, k)
  }

  lemma {:induction false} ChooseAbove(n: nat, k: nat)
    requires n < k
    ensures Choose(n, k) == 0
  {
    if n > 0 {
      ChooseAbove(n - 1, k - 1);
      ChooseAbove(n - 1, k);
    }
  }

  lemma {:induction false} Absorption(n: nat, k: nat)
    requires 1 <= n && 1 <= k
    ensures k * Choose(n, k) == n * Choose(n - 1, k - 1)
  {
    if n == 1 {
      if k > 1 { ChooseAbove(1, k); ChooseAbove(0, k - 1); }
      assert Choose(1, 1) == 1;
    } else if k == 1 {
      Absorption(n - 1, 1);
      assert Choose(n - 1, 0) == Choose(n - 2, 0) == 1;
    } else {
      Absorption(n - 1, k);
      Absorption(n - 1, k - 1);
      var a, b := Choose(n - 1, k - 1), Choose(n - 1, k);
      var c, d := Choose(n - 2, k - 2), Choose(n - 2, k - 1);
      AbsorptionStep(n, k, a, b, c, d);
    }
  }

  lemma AbsorptionStep(n: int, k: int, a: int, b: int, c: int, d: int)
    requires k * b == (n - 1) * d && (k - 1) * a == (n - 1) * c && a == c + d
    ensures k * (a + b) == n * a
  {
    assert k * (a + b) == k * a + k * b;
    assert (k - 1) * a == k * a - a;
    assert (n - 1) * a == (n - 1) * c + (n - 1) * d;
    assert (n - 1) * a == n * a - a;
  }

  /** sum over k <= m of C(n, k) x^k */
  function Partial(n: nat, m: nat, x: int): int {
    Choose(n, m) * Power(x, m) + if m == 0 then 0 else Partial(n, m - 1, x)
  }

  lemma {:induction false} PartialStep(n: nat, m: nat, x: int)
    requires 1 <= m
    ensures Partial(n + 1, m, x) == Partial(n, m, x) + x * Partial(n, m - 1, x)
  {
    if m == 1 {
      assert Partial(n, 0, x) == 1 && Partial(n + 1, 0, x) == 1 && Power(x, 1) == x;
      assert Choose(n + 1, 1) == 1 + Choose(n, 1);
      var c := Choose(n, 1);
      hide Choose, Power;
      assert (1 + c) * x == x + c * x;
    } else {
      PartialStep(n, m - 1, x);
      hide Choose, Power;
      PowerNext(x, m);
      ChooseNext(n, m);
      PartialArithmetic(Choose(n, m - 1), Choose(n, m), Power(x, m), Power(x, m - 1), x,
        Partial(n, m - 1, x), Partial(n, m - 2, x), Partial(n + 1, m - 1, x));
    }
  }

  lemma PowerNext(x: int, m: nat)
    requires m >= 1
    ensures Power(x, m) == x * Power(x, m - 1)
  {
  }

  lemma ChooseNext(n: nat, m: nat)
    requires m >= 1
    ensures Choose(n + 1, m) == Choose(n, m - 1) + Choose(n, m)
  {
  }

  lemma PartialArithmetic(a: int, b: int, w: int, v: int, x: int, s: int, t: int, u: int)
    requires w == x * v && s == a * v + t && u == s + x * t
    ensures (a + b) * w + u == (b * w + s) + x * s
  {
    assert (a + b) * w == a * w + b * w;
    assert a * (x * v) == x * (a * v);
    assert x * (a * v + t) == x * (a * v) + x * t;
  }

  /** The binomial theorem for (1 + x)^n. */
  lemma {:induction false} Binomial(n: nat, x: int)
    ensures Partial(n, n, x) == Power(1 + x, n)
  {
    if n == 0 {
    } else {
      Binomial(n - 1, x);
      PartialStep(n - 1, n, x);
      ChooseAbove(n - 1, n);
      var s := Partial(n - 1, n - 1, x);
      assert Partial(n - 1, n, x) == 0 * Power(x, n) + s;
      hide Partial, Power, Choose;
      assert s + x * s == (1 + x) * s;
    }
  }

  /** A prime divides its inner binomial coefficients. */
  lemma InnerVanishes(p: nat, k: nat)
    requires IsPrime(p) && 1 <= k < p
    ensures Cong(Choose(p, k), 0, p)
  {
    Absorption(p, k);
    var c, d := Choose(p, k), Choose(p - 1, k - 1);
    hide Choose;
    CongIntro(k * c, 0, d, p);
    NoZeroDivisors(k, c, p);
    if Cong(k, 0, p) {
      DivModUnique(k, p, 0, k);
      assert false;
    }
  }

  lemma {:induction false} InnerSum(p: nat, m: nat, x: int)
    requires IsPrime(p) && m < p
    ensures Cong(Partial(p, m, x), 1, p)
  {
    if m == 0 {
    } else {
      InnerSum(p, m - 1, x);
      InnerVanishes(p, m);
      var c, w, s := Choose(p, m), Power(x, m), Partial(p, m - 1, x);
      assert Partial(p, m, x) == c * w + s;
      hide *;
      CongMul(c, 0, w, w, p) by { CongSelf(w, p); }
      CongAdd(c * w, 0, s, 1, p);
    }
  }

  lemma CongSelf(a: int, p: nat)
    requires 0 < p
    ensures Cong(a, a, p)
  {
  }

  lemma FreshmansDream(p: nat, x: int)
    requires IsPrime(p)
    ensures Cong(Power(1 + x, p), Power(x, p) + 1, p)
  {
    hide Partial, Power, Cong, Choose;
    Binomial(p, x);
    InnerSum(p, p - 1, x);
    var w, s := Power(x, p), Partial(p, p - 1, x);
    PartialTop(p, x);
    CongSelf(w, p);
    CongAdd(w, w, s, 1, p);
  }

  /** The last term of the sum is x^n itself. */
  lemma PartialTop(n: nat, x: int)
    requires n > 0
    ensures Partial(n, n, x) == Power(x, n) + Partial(n, n - 1, x)
  {
    ChooseAll(n);
    hide Power, Choose;
  }

  lemma {:induction false} ChooseAll(n: nat)
    ensures Choose(n, n) == 1
  {
    if n > 0 { ChooseAll(n - 1); ChooseAbove(n - 1, n); }
  }

  lemma {:induction false} FermatNat(p: nat, a: nat)
    requires IsPrime(p)
    ensures Cong(Power(a, p), a, p)
  {
    if a == 0 {
      assert Power(0, p) == 0 * Power(0, p - 1);
    } else {
      FermatNat(p, a - 1);
      FreshmansDream(p, a - 1);
      var w, v := Power(a, p), Power(a - 1, p);
      assert 1 + (a - 1) == a;
      hide *;
      CongSelf(1, p);
      CongAdd(v, a - 1, 1, 1, p);
      CongTrans(w, v + 1, a, p);
    }
  }

  /** Fermat's little theorem. */
  lemma LittleTheorem(p: nat, a: nat)
    requires IsPrime(p) && !Cong(a, 0, p)
    ensures Cong(Power(a, p - 1), 1, p)
  {
    FermatNat(p, a);
    var v := Power(a, p - 1);
    assert Power(a, p) == a * v;
    hide Power;
    Cancel(a, v, 1, p);
  }
}
