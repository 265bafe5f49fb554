/** What Ed25519 signing and verification mean on the curve, and that they agree.  The
    hypotheses are p prime, the associativity of the curve's addition, and L * B = O. */
module Ed25519Theorems {
  import opened Arithmetic
  import opened Options
  import opened Bytes
  import opened Field
  import opened Fe25519
  import opened FeBytes
  import opened PrimeField
  import opened Edwards
  import opened Extended
  import opened Ge
  import opened GeCodec
  import opened Decompression
  import opened Scalar
  import opened Ed25519
  import Sha512
  import X25519

  ghost predicate Hypotheses() {
    PIsPrime() && AdditionAssociates() && Times(L, B) == ZERO
  }

  lemma BaseBytes(n: nat)
    requires n == 31
    ensures LE([0x58] + Repeat(0x66, n)) == BY
  {
    assert Pow2(8 * n) == W248 by { Pow2Values(); Pow2Add(192, 32); Pow2Add(224, 16); Pow2Add(240, 8); }
    Pow2Add(8, 8 * n);
    RepeatValue(0x66, n);
    var r := LE(Repeat(0x66, n));
    assert ([0x58] + Repeat(0x66, n))[1..] == Repeat(0x66, n);
    hide Repeat, Pow2, LE;
  }

  lemma BaseParts()
    ensures YOf(B_COMPRESSED) == BY && SignBit(B_COMPRESSED) == 0 && BX % 2 == 0
  {
    BaseBytes(31);
    SplitSign(B_COMPRESSED);
    PValue();
    hide LE, Repeat;
  }

  /** Decompressing the stored base point always succeeds, and gives B. */
  lemma BaseMeaning()
    requires PIsPrime()
    ensures Base() == Some(Ext(BX, BY, 1, FMul(BX, BY))) && Represents(Base().value, B)
    ensures EdD2() == FAdd(D, D)
  {
    hide OnCurve, Decompress, FMul, FPow, FInv, FNeg, YOf, SignBit, Repeat, Residue, LE;
    EdConstants();
    BaseParts();
    BaseOnCurve();
    DecompressComplete(B_COMPRESSED, EdI(), B);
    UnitRepresents(B);
  }

  /** (x, y, 1, x y) represents (x, y). */
  lemma UnitRepresents(p: Point)
    requires OnCurve(p)
    ensures Represents(Ext(p.x, p.y, 1, FMul(p.x, p.y)), p)
  {
    FMulOne(p.x);
    FMulOne(p.y);
    FMulOne(FMul(p.x, p.y));
    hide FMul, OnCurve, Residue;
  }

  /** Encoding a computed multiple is compressing the affine multiple. */
  lemma EncodeTimes(n: nat, q: Ext, p: Point)
    requires PIsPrime() && AdditionAssociates() && Represents(q, p) && n < Pow2(255)
    ensures Encode(ExtTimes(n, q, EdD2())) == Compress(Times(n, p))
  {
    EdConstants();
    hide Represents, ExtTimes, Times, Compress, Affine, FAdd, FMul, FPow, Pow2, AdditionAssociates, Residue;
    ExtTimesRepresents(n, q, p);
    AffineMeaning(ExtTimes(n, q, FAdd(D, D)), Times(n, p));
  }

  lemma SecretBound(f: Compression, seed: seq<byte>)
    ensures LE(SecretScalar(f, seed)) < Pow2(255)
  {
    Pow2Values();
    X25519.ClampValue(Sha512.Hash(f, seed)[..32]);
    hide LE, Pow2, X25519.Clamp, Sha512.Hash;
  }

  lemma OrderBound(n: nat)
    ensures n % L < L < Pow2(255)
  {
    Pow2Values();
  }

  // ---------- the three operations on the curve ----------

  lemma PublicKeyIs(f: Compression, seed: seq<byte>)
    requires Hypotheses()
    ensures PublicKey(f, seed) == Some(Compress(Times(LE(SecretScalar(f, seed)), B)))
  {
    BaseMeaning();
    SecretBound(f, seed);
    hide Base, Represents, Encode, ExtTimes, Times, Compress, LE, Pow2, SecretScalar, AdditionAssociates;
    EncodeTimes(LE(SecretScalar(f, seed)), Base().value, B);
  }

  lemma SignatureIs(f: Compression, seed: seq<byte>, msg: seq<byte>)
    requires Hypotheses()
    ensures
      var a := LE(SecretScalar(f, seed));
      var r := HashScalar(f, Prefix(f, seed) + msg);
      var rb, ab := Compress(Times(r, B)), Compress(Times(a, B));
      var k := HashScalar(f, rb + ab + msg);
      Signature(f, seed, msg) == Some(rb + ToLE(Response(k, a, r), 32))
  {
    hide Response, Base, Represents, Encode, ExtTimes, Times, Compress, LE, ToLE, Pow2,
      SecretScalar, Prefix, AdditionAssociates, FAdd, FMul, FPow, Residue;
    BaseMeaning();
    SecretBound(f, seed);
    OrderBound(LE(Sha512.Hash(f, Prefix(f, seed) + msg)));
    EncodeTimes(LE(SecretScalar(f, seed)), Base().value, B);
    EncodeTimes(HashScalar(f, Prefix(f, seed) + msg), Base().value, B);
  }

  /** ed25519_verify, for a public key that decodes to the point a. */
  lemma VerifiesIs(f: Compression, pub: seq<byte>, sig: seq<byte>, msg: seq<byte>, a: Point)
    requires Hypotheses() && |pub| == 32 && |sig| == 64
    requires Decompress(pub, EdD(), EdI()).Some? && Represents(Decompress(pub, EdD(), EdI()).value, a)
    ensures var k := HashScalar(f, sig[..32] + pub + msg);
      Verifies(f, pub, sig, msg) <==>
        LE(sig[32..]) < L && Compress(PAdd(Times(LE(sig[32..]), B), PNeg(Times(k, a)))) == sig[..32]
  {
    BaseMeaning();
    var q := Decompress(pub, EdD(), EdI()).value;
    hide Base, Represents, LE, AdditionAssociates, Decompress, Recovered;
    if LE(sig[32..]) < L {
      RecoveredMeaning(f, pub, sig, msg, Base().value, q, a);
    }
  }

  lemma RecoveredMeaning(f: Compression, pub: seq<byte>, sig: seq<byte>, msg: seq<byte>, b: Ext, q: Ext, a: Point)
    requires Hypotheses() && |pub| == 32 && |sig| == 64 && LE(sig[32..]) < L
    requires Represents(b, B) && Represents(q, a) && EdD2() == FAdd(D, D)
    ensures Recovered(f, pub, sig, msg, b, q)
      == Compress(PAdd(Times(LE(sig[32..]), B), PNeg(Times(HashScalar(f, sig[..32] + pub + msg), a))))
  {
    var s, k, d2 := LE(sig[32..]), HashScalar(f, sig[..32] + pub + msg), FAdd(D, D);
    OrderBound(LE(Sha512.Hash(f, sig[..32] + pub + msg)));
    hide Represents, ExtTimes, ExtAdd, ExtNeg, Times, PAdd, PNeg, Compress, Affine, LE, FAdd, Pow2,
      AdditionAssociates, Residue;
    ExtTimesRepresents(s, b, B);
    ExtTimesRepresents(k, q, a);
    NegRepresents(ExtTimes(k, q, d2), Times(k, a));
    ExtAddRepresents(ExtTimes(s, b, d2), ExtNeg(ExtTimes(k, q, d2)), Times(s, B), PNeg(Times(k, a)));
    AffineMeaning(ExtAdd(ExtTimes(s, b, d2), ExtNeg(ExtTimes(k, q, d2)), d2), PAdd(Times(s, B), PNeg(Times(k, a))));
  }

  // ---------- in terms of the digests ----------

  /** The secret scalar: bits 3 to 253 of the first half of the seed's digest, and bit 254. */
  lemma SecretNumber(f: Compression, seed: seq<byte>)
    ensures LE(SecretScalar(f, seed)) == Pow2(254) + 8 * (LE(Sha512.Hash(f, seed)[..32]) / 8 % Pow2(251))
  {
    X25519.ClampNumber(Sha512.Hash(f, seed)[..32]);
    hide LE, Pow2, X25519.Clamp, Sha512.Hash;
  }

  /** ed25519_pubkey_from_seed: the encoding of [a]B (RFC 8032, section 5.1.5). */
  lemma PublicKeyMeaning(f: Compression, seed: seq<byte>)
    requires Hypotheses()
    ensures var h := Sha512.Hash(f, seed);
      var a := Pow2(254) + 8 * (LE(h[..32]) / 8 % Pow2(251));
      PublicKey(f, seed) == Some(Compress(Times(a, B)))
  {
    hide Times, Compress, PublicKey, LE, Pow2, SecretScalar, Sha512.Hash, Hypotheses;
    PublicKeyIs(f, seed);
    SecretNumber(f, seed);
  }

  /** ed25519_sign: R = [r]B and S = r + k a mod L, where r is the digest of the second half of the
      seed's digest and the message, k that of R, the public key and the message, all 64 bytes of
      each taken modulo L (RFC 8032, section 5.1.6). */
  lemma SignatureMeaning(f: Compression, seed: seq<byte>, msg: seq<byte>)
    requires Hypotheses()
    ensures var h := Sha512.Hash(f, seed);
      var a := Pow2(254) + 8 * (LE(h[..32]) / 8 % Pow2(251));
      var r := LE(Sha512.Hash(f, h[32..] + msg)) % L;
      var rb, ab := Compress(Times(r, B)), Compress(Times(a, B));
      var k := LE(Sha512.Hash(f, rb + ab + msg)) % L;
      Signature(f, seed, msg) == Some(rb + ToLE((r + k * a) % L, 32))
  {
    hide Times, Compress, Signature, LE, ToLE, Pow2, SecretScalar, Sha512.Hash, Hypotheses, L;
    SignatureIs(f, seed, msg);
    SecretNumber(f, seed);
  }

  /** A curve point with the y of the low 255 bits, modulo p, and the parity of bit 255. */
  ghost predicate StandsFor(pub: seq<byte>, a: Point)
    requires |pub| == 32
  {
    OnCurve(a) && a.y == Residue(LE(pub) % W5) && a.x % 2 == pub[31] as nat / 0x80
  }

  /** ed25519_verify: S < L, and the public key stands for a curve point A with R = [S]B - [k]A
      (RFC 8032, section 5.1.7, without the cofactor). */
  lemma VerifyMeaning(f: Compression, pub: seq<byte>, sig: seq<byte>, msg: seq<byte>)
    requires Hypotheses() && |pub| == 32 && |sig| == 64
    ensures var s, k := LE(sig[32..]), LE(Sha512.Hash(f, sig[..32] + pub + msg)) % L;
      Verifies(f, pub, sig, msg) <==>
        s < L && exists a :: StandsFor(pub, a) && Compress(PAdd(Times(s, B), PNeg(Times(k, a)))) == sig[..32]
  {
    hide Verifies, LE, Times, Compress, OnCurve, Represents, Decompress, PAdd, PNeg, Sha512.Hash, Residue, L,
      PIsPrime, AdditionAssociates, FMul, FPow;
    EdConstants();
    var s, k := LE(sig[32..]), HashScalar(f, sig[..32] + pub + msg);
    if Verifies(f, pub, sig, msg) {
      VerifiesParts(f, pub, sig, msg);
      DecompressSound(pub, EdI());
      var q := Decompress(pub, D, EdI()).value;
      var a := Point(q.X, q.Y);
      RepresentsOnCurve(q, a);
      VerifiesIs(f, pub, sig, msg, a);
      assert StandsFor(pub, a);
    }
    if a :| StandsFor(pub, a) && Compress(PAdd(Times(s, B), PNeg(Times(k, a)))) == sig[..32] {
      DecompressComplete(pub, EdI(), a);
      UnitRepresents(a);
      VerifiesIs(f, pub, sig, msg, a);
    }
  }

  lemma VerifiesParts(f: Compression, pub: seq<byte>, sig: seq<byte>, msg: seq<byte>)
    requires |pub| == 32 && |sig| == 64 && Verifies(f, pub, sig, msg)
    ensures LE(sig[32..]) < L && Decompress(pub, EdD(), EdI()).Some?
  {
  }

  // ---------- completeness ----------

  lemma TimesOfSum(m: nat, r: nat)
    requires Hypotheses()
    ensures Times((m + r) % L, B) == PAdd(Times(m, B), Times(r, B))
  {
    BaseOnCurve();
    hide OnCurve, PAdd, Times, AdditionAssociates;
    TimesMod(m + r, L, B);
    TimesAdd(m, r, B);
  }

  /** [r + k a mod L]B - [k]([a]B) = [r]B */
  lemma DifferenceIsCommitment(k: nat, a: nat, r: nat)
    requires Hypotheses()
    ensures PAdd(Times(Response(k, a, r), B), PNeg(Times(k, Times(a, B)))) == Times(r, B)
  {
    hide Times, OnCurve, PAdd, PNeg, Response, AdditionAssociates, PIsPrime, B, L;
    BaseOnCurve();
    var m: nat := k * a;
    ResponseIs(k, a, r, m);
    TimesOfSum(m, r);
    TimesMul(k, a, m, B);
    CancelMultiple(m, r, B);
  }

  lemma ResponseIs(k: nat, a: nat, r: nat, m: nat)
    requires m == k * a
    ensures Response(k, a, r) == (m + r) % L
  {
    hide L;
  }

  lemma CancelMultiple(m: nat, r: nat, b: Point)
    requires PIsPrime() && AdditionAssociates() && OnCurve(b)
    ensures PAdd(PAdd(Times(m, b), Times(r, b)), PNeg(Times(m, b))) == Times(r, b)
  {
    hide *;
    TimesOnCurve(m, b);
    TimesOnCurve(r, b);
    CancelPoint(Times(m, b), Times(r, b));
  }

  /** Completeness: for every seed, every message and every hash compression function, the
      signature verifies under the public key. */
  lemma Completeness(f: Compression, seed: seq<byte>, msg: seq<byte>)
    requires Hypotheses()
    ensures PublicKey(f, seed).Some? && Signature(f, seed, msg).Some?
    ensures |PublicKey(f, seed).value| == 32 && |Signature(f, seed, msg).value| == 64
    ensures Verifies(f, PublicKey(f, seed).value, Signature(f, seed, msg).value, msg)
  {
    PublicKeyIs(f, seed);
    SignatureIs(f, seed, msg);
    var a := LE(SecretScalar(f, seed));
    var r := HashScalar(f, Prefix(f, seed) + msg);
    hide Verifies, Signature, PublicKey, LE, ToLE, Times, Compress, Response, HashScalar, SecretScalar, Prefix;
    var pub, rb := Compress(Times(a, B)), Compress(Times(r, B));
    var k := HashScalar(f, rb + pub + msg);
    ResponseBytes(k, a, r);
    HonestVerifies(f, a, r, k, rb, pub, ToLE(Response(k, a, r), 32), msg);
  }

  lemma ResponseBytes(k: nat, a: nat, r: nat)
    ensures LE(ToLE(Response(k, a, r), 32)) == Response(k, a, r) < L
  {
    ScalarValue(k * a + r);
  }

  lemma HonestVerifies(f: Compression, a: nat, r: nat, k: nat, rb: seq<byte>, pub: seq<byte>, s: seq<byte>, msg: seq<byte>)
    requires Hypotheses() && |s| == 32 && LE(s) == Response(k, a, r) < L
    requires pub == Compress(Times(a, B)) && rb == Compress(Times(r, B)) && k == HashScalar(f, rb + pub + msg)
    ensures Verifies(f, pub, rb + s, msg)
  {
    hide Verifies, LE, ToLE, Times, Compress, Response, HashScalar, OnCurve, Represents, Decompress,
      PAdd, PNeg, AdditionAssociates;
    var sig := rb + s;
    assert sig[..32] == rb && sig[32..] == s;
    BaseOnCurve();
    TimesOnCurve(a, B);
    EdConstants();
    PointRoundTrip(Times(a, B), EdI());
    UnitRepresents(Times(a, B));
    DifferenceIsCommitment(k, a, r);
    VerifiesIs(f, pub, sig, msg, Times(a, B));
  }
}
