/** Integer facts the rest of the development builds on: Euclidean division,
    powers of two and congruence modulo m. */
module Arithmetic {

  // ---------- division ----------

  /** A quotient and a remainder in range determine `/` and `%`. */
  lemma DivModUnique(x: int, m: int, q: int, r: int)
    requires 0 < m && 0 <= r < m && x == q * m + r
    ensures x / m == q && x % m == r
  {
    var q', r' := x / m, x % m;
    assert x == q' * m + r';
    if q' < q {
      assert (q - q') * m >= m by { MulLe(1, q - q', m); }
    } else if q < q' {
      assert (q' - q) * m >= m by { MulLe(1, q' - q, m); }
    }
  }

  lemma MulLe(x: int, y: int, m: int)
    requires x <= y && 0 <= m
    ensures x * m <= y * m
  {
  }

  lemma MulLt(x: int, y: int, m: int)
    requires x < y && 0 < m
    ensures x * m < y * m
  {
  }

  lemma MulAdd(x: int, y: int, m: int)
    ensures (x + y) * m == x * m + y * m
  {
  }

  lemma MulAssoc(x: int, y: int, z: int)
    ensures (x * y) * z == x * (y * z)
  {
  }

  lemma DivMod(x: int, m: int)
    requires 0 < m
    ensures x == (x / m) * m + x % m && 0 <= x % m < m
    ensures x >= 0 ==> x / m >= 0
  {
    if x >= 0 && x / m < 0 {
      MulLe(x / m, -1, m);
    }
  }

  /** Reducing the summands first does not change the residue of a sum. */
  lemma ModSum(a: int, b: int, m: int)
    requires 0 < m
    ensures (a % m + b % m) % m == (a + b) % m
  {
    var s := a % m + b % m;
    DivMod(a, m);
    DivMod(b, m);
    DivMod(s, m);
    assert a + b == (a / m + b / m + s / m) * m + s % m by {
      MulAdd(a / m, b / m, m);
      MulAdd(a / m + b / m, s / m, m);
    }
    DivModUnique(a + b, m, a / m + b / m + s / m, s % m);
  }

  /** A remainder modulo a multiple of n has the same remainder modulo n. */
  lemma ModMod(x: nat, n: nat, k: nat)
    requires 0 < n && 0 < k
    ensures 0 < n * k && x % (n * k) % n == x % n
  {
    MulLt(0, k, n);
    DivMod(x, n * k);
    var q, y := x / (n * k), x % (n * k);
    DivMod(y, n);
    MulAssoc(q, k, n);
    MulAdd(q * k, y / n, n);
    assert q * (n * k) == q * (k * n);
    DivModUnique(x, n, q * k + y / n, y % n);
  }

  /** Dividing twice is dividing by the product. */
  lemma DivDiv(x: int, m: int, n: int)
    requires 0 < m && 0 < n
    ensures 0 < m * n
    ensures x / (m * n) == (x / m) / n
  {
    var q, r := x / m, x % m;
    var q2, r2 := q / n, q % n;
    DivMod(x, m);
    DivMod(q, n);
    assert x == q2 * (m * n) + (r2 * m + r) by {
      assert x == (q2 * n + r2) * m + r;
      assert (q2 * n + r2) * m == q2 * (m * n) + r2 * m;
    }
    MulLe(r2, n - 1, m);
    assert r2 * m + r < m * n;
    assert 0 <= r2 * m by { MulLe(0, r2, m); }
    DivModUnique(x, m * n, q2, r2 * m + r);
  }

  // ---------- powers of two ----------

  function Pow2(n: nat): (r: nat)
    ensures r >= 1
  {
    if n == 0 then 1 else 2 * Pow2(n - 1)
  }

  lemma {:induction false} Pow2Add(a: nat, b: nat)
    ensures Pow2(a + b) == Pow2(a) * Pow2(b)
  {
    if a > 0 {
      Pow2Add(a - 1, b);
      assert Pow2(a) * Pow2(b) == 2 * (Pow2(a - 1) * Pow2(b));
    }
  }

  lemma {:induction false} Pow2Le(a: nat, b: nat)
    requires a <= b
    ensures Pow2(a) <= Pow2(b)
  {
    if a < b { Pow2Le(a, b - 1); }
  }

  /** v shifted right by k bits. */
  function Shr(v: nat, k: nat): nat {
    DivMod(v, Pow2(k));
    v / Pow2(k)
  }

  /** The bit of weight 2^k splits off the quotient. */
  lemma HalfStep(v: nat, k: nat)
    ensures Shr(v, k) == 2 * Shr(v, k + 1) + Shr(v, k) % 2
  {
    assert Pow2(k + 1) == Pow2(k) * 2;
    DivDiv(v, Pow2(k), 2);
  }

  /** A number of n bits shifted out leaves nothing; an unshifted one is unchanged. */
  lemma ShrEnds(v: nat, n: nat)
    requires v < Pow2(n)
    ensures Shr(v, n) == 0 && Shr(v, 0) == v
  {
    DivModUnique(v, Pow2(n), 0, v);
  }

  lemma Pow2Values()
    ensures Pow2(8) == 0x100 && Pow2(16) == 0x1_0000 && Pow2(32) == 0x1_0000_0000
    ensures Pow2(51) == 0x8_0000_0000_0000 && Pow2(64) == 0x1_0000_0000_0000_0000
    ensures Pow2(128) == 0x1_0000_0000_0000_0000_0000_0000_0000_0000
    ensures Pow2(192) == 0x1_0000_0000_0000_0000_0000_0000_0000_0000_0000_0000_0000_0000
    ensures Pow2(255) == 0x8000_0000_0000_0000_0000_0000_0000_0000_0000_0000_0000_0000_0000_0000_0000_0000
    ensures Pow2(256) == 2 * Pow2(255)
  {
    SmallPowers();
    hide Pow2;
    Pow2Add(8, 8);
    Pow2Add(16, 16);
    Pow2Add(32, 16);
    Pow2Add(48, 3);
    Pow2Add(32, 32);
    Pow2Add(64, 64);
    Pow2Add(128, 64);
    Pow2Add(192, 48);
    Pow2Add(240, 15);
    Pow2Double(255);
  }

  lemma SmallPowers()
    ensures Pow2(3) == 8 && Pow2(8) == 0x100 && Pow2(15) == 0x8000
  {
  }

  lemma Pow2Double(n: nat)
    ensures Pow2(n + 1) == 2 * Pow2(n)
  {
  }

  // ---------- congruence ----------

  ghost predicate Cong(a: int, b: int, m: int)
    requires 0 < m
  {
    (a - b) % m == 0
  }

  /** Congruence by exhibiting the multiple. */
  lemma CongIntro(a: int, b: int, k: int, m: int)
    requires 0 < m && a == b + k * m
    ensures Cong(a, b, m)
  {
    DivModUnique(a - b, m, k, 0);
  }

  lemma CongElim(a: int, b: int, m: int) returns (k: int)
    requires 0 < m && Cong(a, b, m)
    ensures a == b + k * m
  {
    k := (a - b) / m;
    DivMod(a - b, m);
  }

  lemma CongMod(a: int, m: int)
    requires 0 < m
    ensures Cong(a % m, a, m) && Cong(a, a % m, m)
  {
    DivMod(a, m);
    CongIntro(a, a % m, a / m, m);
    CongIntro(a % m, a, -(a / m), m);
  }

  lemma CongSym(a: int, b: int, m: int)
    requires 0 < m && Cong(a, b, m)
    ensures Cong(b, a, m)
  {
    var k := CongElim(a, b, m);
    CongIntro(b, a, -k, m);
  }

  lemma CongTrans(a: int, b: int, c: int, m: int)
    requires 0 < m && Cong(a, b, m) && Cong(b, c, m)
    ensures Cong(a, c, m)
  {
    var k := CongElim(a, b, m);
    var l := CongElim(b, c, m);
    assert a == c + (k + l) * m;
    CongIntro(a, c, k + l, m);
  }

  lemma CongAdd(a: int, a': int, b: int, b': int, m: int)
    requires 0 < m && Cong(a, a', m) && Cong(b, b', m)
    ensures Cong(a + b, a' + b', m) && Cong(a - b, a' - b', m)
  {
    var k := CongElim(a, a', m);
    var l := CongElim(b, b', m);
    assert a + b == (a' + b') + (k + l) * m;
    CongIntro(a + b, a' + b', k + l, m);
    assert a - b == (a' - b') + (k - l) * m;
    CongIntro(a - b, a' - b', k - l, m);
  }

  lemma CongMul(a: int, a': int, b: int, b': int, m: int)
    requires 0 < m && Cong(a, a', m) && Cong(b, b', m)
    ensures Cong(a * b, a' * b', m)
  {
    var k := CongElim(a, a', m);
    var l := CongElim(b, b', m);
    assert a * b == a' * b' + (a' * l + k * b' + k * l * m) * m by {
      assert (a' + k * m) * (b' + l * m)
        == a' * b' + a' * (l * m) + (k * m) * b' + (k * m) * (l * m);
      assert (a' * l + k * b' + k * l * m) * m
        == a' * (l * m) + (k * m) * b' + (k * m) * (l * m);
    }
    CongIntro(a * b, a' * b', a' * l + k * b' + k * l * m, m);
  }

  /** Congruent numbers have the same residue, and conversely. */
  lemma CongIff(a: int, b: int, m: int)
    requires 0 < m
    ensures Cong(a, b, m) <==> a % m == b % m
  {
    DivMod(a, m);
    DivMod(b, m);
    hide Cong;
    var p, q, r, s := a / m, b / m, a % m, b % m;
    if Cong(a, b, m) {
      var k := CongElim(a, b, m);
      MulAdd(q, k, m);
      DivModUnique(a, m, q + k, s);
    }
    if r == s {
      MulAdd(p - q, q, m);
      CongIntro(a, b, p - q, m);
    }
  }
}
