/** src/ed25519.c: key derivation, signing and verification.  The hash is SHA-512 over an
    arbitrary compression function. */
module Ed25519 {
  import opened Options
  import opened Bytes
  import opened Field
  import opened Fe25519
  import opened PrimeField
  import opened Extended
  import opened Ge
  import opened GeCodec
  import opened Scalar
  import Sha512
  import X25519
  import FeBytes

  type Compression = Sha512.Compression

  // ---------- what the three entry points compute ----------

  function EdD(): Fp { FMul(FNeg(121665), FInv(121666)) }
  function EdD2(): Fp { FAdd(EdD(), EdD()) }
  function EdI(): Fp { FPow(2, QUARTER) }

  /** The base point, compressed: y = 4/5, x even. */
  const B_COMPRESSED: seq<byte> := [0x58] + Repeat(0x66, 31)

  function Base(): Option<Ext> { Decompress(B_COMPRESSED, EdD(), EdI()) }

  /** The clamped secret scalar and the hash prefix of a seed. */
  function SecretScalar(f: Compression, seed: seq<byte>): (a: seq<byte>)
    ensures |a| == 32
  {
    X25519.Clamp(Sha512.Hash(f, seed)[..32])
  }

  function Prefix(f: Compression, seed: seq<byte>): seq<byte> { Sha512.Hash(f, seed)[32..] }

  /** SHA-512 of m as a scalar modulo L. */
  function HashScalar(f: Compression, m: seq<byte>): nat { LE(Sha512.Hash(f, m)) % L }

  /** S = r + k a mod L */
  function Response(k: nat, a: nat, r: nat): nat { (k * a + r) % L }

  function Encode(p: Ext): (b: seq<byte>)
    ensures |b| == 32
  {
    Compress(Affine(p))
  }

  function PublicKey(f: Compression, seed: seq<byte>): Option<seq<byte>> {
    match Base()
    case None => None
    case Some(b) => Some(Encode(ExtTimes(LE(SecretScalar(f, seed)), b, EdD2())))
  }

  function SignatureBytes(f: Compression, a: nat, prefix: seq<byte>, msg: seq<byte>, b: Ext): (s: seq<byte>)
    ensures |s| == 64
  {
    var r := HashScalar(f, prefix + msg);
    var rb, ab := Encode(ExtTimes(r, b, EdD2())), Encode(ExtTimes(a, b, EdD2()));
    var k := HashScalar(f, rb + ab + msg);
    rb + ToLE(Response(k, a, r), 32)
  }

  function Signature(f: Compression, seed: seq<byte>, msg: seq<byte>): Option<seq<byte>> {
    match Base()
    case None => None
    case Some(b) => Some(SignatureBytes(f, LE(SecretScalar(f, seed)), Prefix(f, seed), msg, b))
  }

  /** The point [S]B - [k]A, encoded. */
  function Recovered(f: Compression, pub: seq<byte>, sig: seq<byte>, msg: seq<byte>, b: Ext, a: Ext): (r: seq<byte>)
    requires |sig| == 64
    ensures |r| == 32
  {
    var k := HashScalar(f, sig[..32] + pub + msg);
    Encode(ExtAdd(ExtTimes(LE(sig[32..]), b, EdD2()), ExtNeg(ExtTimes(k, a, EdD2())), EdD2()))
  }

  predicate Verifies(f: Compression, pub: seq<byte>, sig: seq<byte>, msg: seq<byte>)
    requires |pub| == 32 && |sig| == 64
  {
    && LE(sig[32..]) < L
    && Base().Some? && Decompress(pub, EdD(), EdI()).Some?
    && Recovered(f, pub, sig, msg, Base().value, Decompress(pub, EdD(), EdI()).value) == sig[..32]
  }

  // ---------- the methods ----------

  /** sha512_init, three updates, sha512_final */
  method HashThree(f: Compression, x: seq<byte>, y: seq<byte>, z: seq<byte>) returns (digest: seq<byte>)
    requires |x| < Sha512.TWO64 && |y| < Sha512.TWO64 && |z| < Sha512.TWO64
    ensures digest == Sha512.Hash(f, x + y + z)
  {
    hide Sha512.Hash;
    var c := new Sha512.Context(f);
    c.Update(x);
    assert [] + x == x;
    c.Update(y);
    c.Update(z);
    digest := c.Final();
  }

  method SetUp() returns (c: EdCtx, b: GeP3, ok: bool)
    ensures fresh(c) && fresh(b) && fresh(c.Limbs()) && fresh(b.Limbs()) && c.Limbs() !! b.Limbs()
    ensures c.Valid() && Fe(c.d[..]) == EdD() && Fe(c.d2[..]) == EdD2() && Fe(c.sqrtm1[..]) == EdI()
    ensures ok <==> Base().Some?
    ensures ok ==> b.Valid() && b.Value() == Base().value
  {
    hide FMul, FPow, FInv, FNeg, FAdd, Fe, Decompress, Residue;
    c := new EdCtx();
    EdInit(c);
    b := new GeP3();
    ok := GeFromBytes(b, B_COMPRESSED, c);
  }

  method ExpandSeed(f: Compression, seed: seq<byte>) returns (az: seq<byte>, a: array<byte>)
    requires |seed| == 32
    ensures fresh(a) && a.Length == 32 && a[..] == SecretScalar(f, seed)
    ensures |az| == 64 && az[32..] == Prefix(f, seed)
  {
    hide Sha512.Hash, X25519.Clamp;
    az := HashThree(f, seed, [], []);
    assert seed + [] + [] == seed;
    a := new byte[32];
    X25519.ClampBytes(a, az[..32]);
  }

  method PubkeyFromSeed(f: Compression, pub: array<byte>, seed: seq<byte>) returns (ok: bool)
    requires pub.Length == 32 && |seed| == 32
    modifies pub
    ensures ok <==> PublicKey(f, seed).Some?
    ensures ok ==> pub[..] == PublicKey(f, seed).value
  {
    hide Base, SecretScalar, Compress, Affine, ExtTimes, LE, Fe, Residue;
    var c, b, found := SetUp();
    if !found { return false; }
    var az, a := ExpandSeed(f, seed);
    var p := new GeP3();
    GeScalarMult(p, b, a[..], c);
    GeToBytes(pub, p);
    ok := true;
  }

  /** n * P, encoded */
  method EncodeMultiple(p: GeP3, n: seq<byte>, c: EdCtx) returns (b: array<byte>)
    requires p.Valid() && c.Valid() && |n| == 32
    ensures fresh(b) && b.Length == 32
    ensures b[..] == Encode(ExtTimes(LE(n), p.Value(), Fe(c.d2[..])))
  {
    hide Compress, Affine, ExtTimes, LE, Fe, Residue;
    var q := new GeP3();
    GeScalarMult(q, p, n, c);
    b := new byte[32];
    GeToBytes(b, q);
  }

  /** SHA-512 of x || y || z, reduced modulo L, as a 32-byte scalar. */
  method ReducedHash(f: Compression, x: seq<byte>, y: seq<byte>, z: seq<byte>) returns (s: array<byte>)
    requires |x| < Sha512.TWO64 && |y| < Sha512.TWO64 && |z| < Sha512.TWO64
    ensures fresh(s) && s.Length == 32 && LE(s[..]) == HashScalar(f, x + y + z) < L
  {
    hide Sha512.Hash, LE, ToLE;
    var h := HashThree(f, x, y, z);
    s := new byte[32];
    ReduceWide(s, h);
    ScalarValue(LE(h));
  }

  method Sign(f: Compression, sig: array<byte>, seed: seq<byte>, msg: seq<byte>) returns (ok: bool)
    requires sig.Length == 64 && |seed| == 32 && |msg| < Sha512.TWO64
    modifies sig
    ensures ok <==> Signature(f, seed, msg).Some?
    ensures ok ==> sig[..] == Signature(f, seed, msg).value
  {
    hide Base, SecretScalar, Prefix, SignatureBytes, LE, Fe, EdD2, Residue;
    var c, b, found := SetUp();
    if !found { return false; }
    var az, a := ExpandSeed(f, seed);
    SignWith(f, sig, a[..], az[32..], msg, b, c);
    ok := true;
  }

  /** R = [r]B and S = r + k a mod L, for the expanded seed (a, prefix). */
  method SignWith(f: Compression, sig: array<byte>, a: seq<byte>, prefix: seq<byte>, msg: seq<byte>, b: GeP3, c: EdCtx)
    requires sig.Length == 64 && |a| == 32 && |prefix| == 32 && |msg| < Sha512.TWO64
    requires b.Valid() && c.Valid() && Fe(c.d2[..]) == EdD2()
    modifies sig
    ensures sig[..] == SignatureBytes(f, LE(a), prefix, msg, old(b.Value()))
  {
    hide Encode, ExtTimes, LE, ToLE, Fe, HashScalar, Reduced, AtMost2P, MaxLimb, EdD2, Residue;
    var r := ReducedHash(f, prefix, msg, []);
    assert prefix + msg + [] == prefix + msg;
    var rb := EncodeMultiple(b, r[..], c);
    var ab := EncodeMultiple(b, a, c);
    var k := ReducedHash(f, rb[..], ab[..], msg);
    var s := new byte[32];
    MulAddMod(s, k[..], a, r[..]);
    WriteSignature(sig, rb[..], s[..]);
  }

  method WriteSignature(sig: array<byte>, r: seq<byte>, s: seq<byte>)
    requires sig.Length == 64 && |r| == 32 && |s| == 32
    modifies sig
    ensures sig[..] == r + s
  {
    forall i | 0 <= i < 64 { sig[i] := if i < 32 then r[i] else s[i - 32]; }
  }

  method Verify(f: Compression, pub: seq<byte>, sig: seq<byte>, msg: seq<byte>) returns (ok: bool)
    requires |pub| == 32 && |sig| == 64 && |msg| < Sha512.TWO64
    ensures ok <==> Verifies(f, pub, sig, msg)
  {
    hide Base, Decompress, Recovered, LE, Fe, Residue;
    var lt := BelowOrder(sig[32..]);
    if !lt { return false; }
    var c, b, found := SetUp();
    if !found { return false; }
    var a := new GeP3();
    found := GeFromBytes(a, pub, c);
    if !found { return false; }
    var qb := RecoverPoint(f, pub, sig, msg, b, a, c);
    ok := FeBytes.SameBytes(qb[..], sig[..32]);
  }

  /** Check [S]B - [k]A: the left-hand side of the comparison. */
  method RecoverPoint(f: Compression, pub: seq<byte>, sig: seq<byte>, msg: seq<byte>, b: GeP3, a: GeP3, c: EdCtx)
    returns (qb: array<byte>)
    requires |pub| == 32 && |sig| == 64 && |msg| < Sha512.TWO64
    requires a.Valid() && b.Valid() && c.Valid() && Fe(c.d2[..]) == EdD2()
    ensures fresh(qb) && qb.Length == 32
    ensures qb[..] == Recovered(f, pub, sig, msg, b.Value(), a.Value())
  {
    hide ExtTimes, ExtAdd, ExtNeg, Affine, Compress, LE, Fe, HashScalar, Reduced, AtMost2P, MaxLimb, FAdd, Residue;
    var k := ReducedHash(f, sig[..32], pub, msg);
    var sb := Multiple(b, sig[32..], c);
    var ka := Multiple(a, k[..], c);
    qb := EncodeDifference(sb, ka, c);
  }

  /** n * P */
  method Multiple(p: GeP3, n: seq<byte>, c: EdCtx) returns (q: GeP3)
    requires p.Valid() && c.Valid() && |n| == 32
    ensures fresh(q) && fresh(q.Limbs()) && q.Valid()
    ensures q.Value() == ExtTimes(LE(n), p.Value(), Fe(c.d2[..]))
  {
    hide ExtTimes, LE, Fe, Reduced, AtMost2P, MaxLimb, Residue;
    q := new GeP3();
    GeScalarMult(q, p, n, c);
  }

  /** p - q, encoded */
  method EncodeDifference(p: GeP3, q: GeP3, c: EdCtx) returns (b: array<byte>)
    requires p.Valid() && q.Valid() && c.Valid()
    ensures fresh(b) && b.Length == 32
    ensures b[..] == Encode(ExtAdd(p.Value(), ExtNeg(q.Value()), Fe(c.d2[..])))
  {
    hide ExtAdd, ExtNeg, Affine, Compress, Fe, Reduced, AtMost2P, MaxLimb, Residue;
    var neg := new GeP3();
    GeNegate(neg, q);
    var r := new GeP3();
    GeAdd(r, p, neg, c);
    b := new byte[32];
    GeToBytes(b, r);
  }
}
