/** src/ed25519.c: compressing and decompressing points, and the curve constants. */
module GeCodec {
  import opened Arithmetic
  import opened Options
  import opened Bytes
  import opened Field
  import opened Fe25519
  import opened FeBytes
  import opened PrimeField
  import opened Edwards
  import opened Extended
  import opened Ge

  // ---------- compression ----------

  /** y in 255 bits with the parity of x in the top bit (RFC 8032, section 5.1.2). */
  function Compress(p: Point): (b: seq<byte>)
    ensures |b| == 32
  {
    ToLE(p.y + W5 * (p.x % 2), 32)
  }

  lemma CompressMeaning(p: Point)
    ensures LE(Compress(p)) == p.y + Pow2(255) * (p.x % 2)
  {
    PValue();
    Pow2Values();
    hide LE, ToLE, Pow2;
    FieldFits(p.y + W5 * (p.x % 2), 32);
    LEToLE(p.y + W5 * (p.x % 2), 32);
  }

  /** The affine point of a projective representative, by inversion. */
  function Affine(p: Ext): Point {
    var zi := FInv(p.Z);
    Point(FMul(p.X, zi), FMul(p.Y, zi))
  }

  lemma AffineMeaning(q: Ext, p: Point)
    requires PIsPrime() && Represents(q, p)
    ensures Affine(q) == p
  {
    InverseLaw(q.Z);
    FMulAssoc(p.x, q.Z, FInv(q.Z));
    FMulAssoc(p.y, q.Z, FInv(q.Z));
    FMulOne(p.x);
    FMulOne(p.y);
    hide FMul, FInv, Residue;
  }

  /** Setting the top bit of an encoding below 2^255. */
  lemma TopBit(y: Fp, s: nat, b: seq<byte>)
    requires s <= 1 && b == ToLE(y, 32)
    ensures b[31] < 0x80
    ensures b[31 := b[31] + 0x80 * s] == ToLE(y + W5 * s, 32)
  {
    EncodingRoundTrip(y);
    LastByte(b);
    hide LE, ToLE;
    var b' := b[31 := b[31] + 0x80 * s];
    LastByte(b');
    assert b'[..31] == b[..31];
    assert LE(b') == y + W5 * s;
    ToLELE(b');
  }

  /** Both coordinates divided by Z. */
  method AffineLimbs(p: GeP3) returns (x: array<u64>, y: array<u64>)
    requires p.Valid()
    ensures fresh(x) && fresh(y) && x.Length == 5 && y.Length == 5 && Reduced(x[..]) && Reduced(y[..])
    ensures Point(Fe(x[..]), Fe(y[..])) == Affine(p.Value())
  {
    hide Fe, Reduced, AtMost2P, MaxLimb, FMul, FInv, Residue;
    var zi := new u64[5];
    x, y := new u64[5], new u64[5];
    ReducedBounds(p.Y[..]);
    ReducedBounds(p.Z[..]);
    AtMost2PBounds(p.X[..]);
    Invert(zi, p.Z);
    ReducedBounds(zi[..]);
    Mul(x, p.X, zi);
    Mul(y, p.Y, zi);
  }

  method GeToBytes(out: array<byte>, p: GeP3)
    requires out.Length == 32 && p.Valid()
    modifies out
    ensures out[..] == Compress(Affine(p.Value()))
  {
    hide Fe, Reduced, AtMost2P, MaxLimb, FMul, FInv, ToLE, Residue;
    var x, y := AffineLimbs(p);
    ReducedBounds(x[..]);
    ReducedBounds(y[..]);
    ToBytes(out, y);
    var parity := Parity(x);
    TopBit(Fe(y[..]), parity, out[..]);
    out[31] := Or(out[31], parity * 0x80, 0x80);
  }

  // ---------- decompression ----------

  /** x^((p+3)/8), corrected by sqrt(-1) when its square is -x2; None when x2 is no square. */
  function SquareRoot(x2: Fp, sqrtm1: Fp): Option<Fp> {
    var cand := FPow(x2, (P + 3) / 8);
    var cand2 := FMul(cand, cand);
    if cand2 == x2 then Some(cand)
    else if cand2 == FNeg(x2) then Some(FMul(cand, sqrtm1))
    else None
  }

  /** (y^2 - 1) / (d y^2 + 1) */
  function XSquared(y: Fp, d: Fp): Fp {
    var y2 := FMul(y, y);
    FMul(FSub(y2, 1), FInv(FAdd(FMul(y2, d), 1)))
  }

  function SignBit(b: seq<byte>): nat
    requires |b| == 32
  {
    b[31] / 0x80
  }

  /** The point a 32-byte string stands for, as the source decides it: y is the low 255 bits,
      not required to be below p. */
  function Decompress(b: seq<byte>, d: Fp, sqrtm1: Fp): Option<Ext>
    requires |b| == 32
  {
    var y := Residue(LE(b) % W5);
    match SquareRoot(XSquared(y, d), sqrtm1)
    case None => None
    case Some(x) =>
      if x == 0 && SignBit(b) == 1 then None
      else
        var x' := if x % 2 != SignBit(b) then FNeg(x) else x;
        Some(Ext(x', y, 1, FMul(x', y)))
  }

  method GeFromBytes(p: GeP3, b: seq<byte>, c: EdCtx) returns (ok: bool)
    requires p.Shape() && c.Valid() && |b| == 32 && p.Limbs() !! c.Limbs()
    modifies p.Limbs()
    ensures ok <==> Decompress(b, Fe(c.d[..]), Fe(c.sqrtm1[..])).Some?
    ensures ok ==> p.Valid() && p.Value() == Decompress(b, Fe(c.d[..]), Fe(c.sqrtm1[..])).value
    ensures !ok ==> p.Value() == old(p.Value())
  {
    hide Fe, Reduced, AtMost2P, MaxLimb, FMul, FNeg, SquareRoot, XSquared, LE, Residue;
    var y := LoadY(b);
    var x2 := Quotient(y, c);
    var found, x := Root(x2, c);
    if !found { return false; }
    ok := FixSign(x, b[31] / 0x80);
    if !ok { return false; }
    WritePoint(p, x, y);
  }

  /** The low 255 bits as a field element. */
  method LoadY(b: seq<byte>) returns (y: array<u64>)
    requires |b| == 32
    ensures fresh(y) && y.Length == 5 && Reduced(y[..]) && Fe(y[..]) == Residue(LE(b) % W5)
  {
    hide Fe, Reduced, Below51, Val, LE, Residue;
    y := new u64[5];
    FromBytes(y, b[31 := b[31] % 0x80]);
    LowBits(b, y[..]);
  }

  /** Rejects a zero x with the sign bit set, otherwise gives x the parity of the sign. */
  method FixSign(x: array<u64>, sign: nat) returns (ok: bool)
    requires x.Length == 5 && AtMost2P(x[..]) && sign <= 1
    modifies x
    ensures AtMost2P(x[..]) && (ok <==> !(old(Fe(x[..])) == 0 && sign == 1))
    ensures ok ==> Fe(x[..]) == if old(Fe(x[..])) % 2 != sign then FNeg(old(Fe(x[..]))) else old(Fe(x[..]))
  {
    hide Fe, AtMost2P, MaxLimb, FNeg, Residue;
    AtMost2PBounds(x[..]);
    var zero := IsZero(x);
    if zero && sign == 1 { return false; }
    var parity := Parity(x);
    if parity != sign { Neg(x, x); }
    ok := true;
  }

  /** (x : y : 1 : x y) */
  method WritePoint(p: GeP3, x: array<u64>, y: array<u64>)
    requires p.Shape() && x.Length == 5 && y.Length == 5 && {x, y} !! p.Limbs()
    requires AtMost2P(x[..]) && Reduced(y[..])
    modifies p.Limbs()
    ensures p.Valid() && p.Value() == Ext(Fe(x[..]), Fe(y[..]), 1, FMul(Fe(x[..]), Fe(y[..])))
  {
    hide Fe, Reduced, AtMost2P, MaxLimb, FMul, Residue;
    AtMost2PBounds(x[..]);
    ReducedBounds(y[..]);
    SmallValue(1);
    Copy(p.X, x);
    Copy(p.Y, y);
    FromU64(p.Z, 1);
    Mul(p.T, x, y);
    ReducedBounds(p.T[..]);
  }

  /** Masking the sign bit away does not change the low 255 bits. */
  lemma LowBits(b: seq<byte>, y: Limbs)
    requires |b| == 32 && Below51(y) && Val(y) == LE(b[31 := b[31] % 0x80]) % W5
    ensures Fe(y) == Residue(LE(b) % W5) && Reduced(y)
  {
    hide LE, Below51, Val;
    InputBounds(y);
    var yb := b[31 := b[31] % 0x80];
    assert yb[..31] == b[..31];
    LastByte(b);
    LastByte(yb);
    LowPart(LE(b), LE(yb), LE(b[..31]), b[31]);
  }

  lemma LowPart(v: nat, w: nat, low: nat, top: byte)
    requires v == low + W248 * top && w == low + W248 * (top % 0x80) && low < W248
    ensures v % W5 == w % W5
  {
    DivModUnique(v, W5, top / 0x80, w);
    DivModUnique(w, W5, 0, w);
  }

  lemma InputBounds(s: Limbs)
    requires Below51(s)
    ensures Reduced(s)
  {
  }

  /** x2 = (y^2 - 1) / (d y^2 + 1) */
  method Quotient(y: array<u64>, c: EdCtx) returns (x2: array<u64>)
    requires y.Length == 5 && Reduced(y[..]) && c.Valid()
    ensures fresh(x2) && x2.Length == 5 && Reduced(x2[..])
    ensures Fe(x2[..]) == XSquared(Fe(y[..]), Fe(c.d[..]))
  {
    hide Fe, Reduced, AtMost2P, MaxLimb, FMul, FAdd, FSub, FInv, Residue;
    var u, v := Fraction(y, c);
    x2 := new u64[5];
    Invert(v, v);
    ReducedBounds(v[..]);
    Mul(x2, u, v);
  }

  /** u = y^2 - 1 and v = d y^2 + 1 */
  method Fraction(y: array<u64>, c: EdCtx) returns (u: array<u64>, v: array<u64>)
    requires y.Length == 5 && Reduced(y[..]) && c.Valid()
    ensures fresh(u) && fresh(v) && u != v && u.Length == 5 && v.Length == 5
    ensures MaxLimb(u[..]) < TWO54 && MaxLimb(v[..]) < TWO54
    ensures var y2 := FMul(Fe(y[..]), Fe(y[..]));
      Fe(u[..]) == FSub(y2, 1) && Fe(v[..]) == FAdd(FMul(y2, Fe(c.d[..])), 1)
  {
    hide Fe, Reduced, AtMost2P, MaxLimb, FMul, FAdd, FSub, Residue;
    ReducedBounds(y[..]);
    ReducedBounds(c.d[..]);
    var one := NewSmall(1);
    ReducedBounds(one[..]);
    var y2 := new u64[5];
    Mul(y2, y, y);
    ReducedBounds(y2[..]);
    u, v := new u64[5], new u64[5];
    Sub(u, y2, one);
    Mul(v, y2, c.d);
    ReducedBounds(v[..]);
    Add(v, v, one);
  }

  /** The square root candidate and its two checks. */
  method Root(x2: array<u64>, c: EdCtx) returns (found: bool, x: array<u64>)
    requires x2.Length == 5 && Reduced(x2[..]) && c.Valid()
    ensures fresh(x) && x.Length == 5 && AtMost2P(x[..])
    ensures found <==> SquareRoot(Fe(x2[..]), Fe(c.sqrtm1[..])).Some?
    ensures found ==> Fe(x[..]) == SquareRoot(Fe(x2[..]), Fe(c.sqrtm1[..])).value
  {
    hide Fe, Reduced, AtMost2P, MaxLimb, FMul, FPow, FNeg, LE, Residue;
    ReducedBounds(x2[..]);
    ReducedBounds(c.sqrtm1[..]);
    x := new u64[5];
    ExponentTables();
    var e := P58_EXP;
    Pow(x, x2, e);
    ReducedBounds(x[..]);
    var same, opposite := CheckRoot(x, x2);
    if same { return true, x; }
    if opposite {
      Mul(x, x, c.sqrtm1);
      ReducedBounds(x[..]);
      return true, x;
    }
    found := false;
  }

  /** Is the square of the candidate x2, or -x2? */
  method CheckRoot(cand: array<u64>, x2: array<u64>) returns (same: bool, opposite: bool)
    requires cand.Length == 5 && Reduced(cand[..]) && x2.Length == 5 && Reduced(x2[..])
    ensures same <==> FMul(Fe(cand[..]), Fe(cand[..])) == Fe(x2[..])
    ensures opposite <==> FMul(Fe(cand[..]), Fe(cand[..])) == FNeg(Fe(x2[..]))
  {
    hide Fe, Reduced, AtMost2P, MaxLimb, FMul, FNeg, Residue;
    ReducedBounds(cand[..]);
    ReducedBounds(x2[..]);
    var cand2, u := new u64[5], new u64[5];
    Mul(cand2, cand, cand);
    ReducedBounds(cand2[..]);
    same := Equal(cand2, x2);
    Neg(u, x2);
    AtMost2PBounds(u[..]);
    opposite := Equal(cand2, u);
  }

  /** d = -121665 / 121666 */
  method InitD(d: array<u64>)
    requires d.Length == 5
    modifies d
    ensures Reduced(d[..]) && Fe(d[..]) == FMul(FNeg(121665), FInv(121666))
  {
    hide Fe, Reduced, AtMost2P, MaxLimb, FMul, FNeg, FInv, LE, Residue;
    SmallValue(121665);
    SmallValue(121666);
    ReducedBounds([121665, 0, 0, 0, 0]);
    ReducedBounds([121666, 0, 0, 0, 0]);
    var num, inv := new u64[5], new u64[5];
    FromU64(num, 121665);
    Neg(num, num);
    AtMost2PBounds(num[..]);
    FromU64(inv, 121666);
    Invert(inv, inv);
    ReducedBounds(inv[..]);
    Mul(d, num, inv);
  }

  /** 2^((p-1)/4) */
  method InitRoot(root: array<u64>)
    requires root.Length == 5
    modifies root
    ensures Reduced(root[..]) && Fe(root[..]) == FPow(2, QUARTER)
  {
    hide Fe, Reduced, MaxLimb, FPow, LE, Residue;
    SmallValue(2);
    ReducedBounds([2, 0, 0, 0, 0]);
    var two := new u64[5];
    FromU64(two, 2);
    ExponentTables();
    var e := P14_EXP;
    Pow(root, two, e);
  }

  /** d = -121665 / 121666, d2 = 2d, sqrtm1 = 2^((p-1)/4) */
  method EdInit(c: EdCtx)
    requires c.d.Length == 5 && c.d2.Length == 5 && c.sqrtm1.Length == 5
    requires c.d != c.d2 && c.d != c.sqrtm1 && c.d2 != c.sqrtm1
    modifies c.Limbs()
    ensures c.Valid()
    ensures Fe(c.d[..]) == FMul(FNeg(121665), FInv(121666))
    ensures Fe(c.d2[..]) == FAdd(Fe(c.d[..]), Fe(c.d[..]))
    ensures Fe(c.sqrtm1[..]) == FPow(2, QUARTER)
  {
    hide Fe, Reduced, AtMost2P, MaxLimb, FMul, FAdd, FPow, FNeg, FInv, Residue;
    InitD(c.d);
    ReducedBounds(c.d[..]);
    Add(c.d2, c.d, c.d);
    InitRoot(c.sqrtm1);
  }
}
