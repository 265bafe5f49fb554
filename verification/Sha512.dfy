/** src/sha512.c: the streaming context with its two-word bit counter.  The compression
    function sha512_block is a parameter. */
module Sha512 {
  import opened Arithmetic
  import opened Bytes
  import opened StreamHash

  type State = s: seq<u64> | |s| == 8 witness [0, 0, 0, 0, 0, 0, 0, 0]
  type Compression = (State, seq<byte>) -> State

  const BLOCK: nat := 128
  const TWO64: nat := 0x1_0000_0000_0000_0000
  const TWO128: nat := 0x1_0000_0000_0000_0000_0000_0000_0000_0000

  const INITIAL: State := [
    0x6a09e667f3bcc908, 0xbb67ae8584caa73b, 0x3c6ef372fe94f82b, 0xa54ff53a5f1d36f1,
    0x510e527fade682d1, 0x9b05688c2b3e6c1f, 0x1f83d9abfb41bd6b, 0x5be0cd19137e2179]

  /** The first n words, big-endian. */
  function WordBytes(s: seq<u64>, n: nat): (b: seq<byte>)
    requires n <= |s|
    ensures |b| == 8 * n
  {
    if n == 0 then [] else WordBytes(s, n - 1) + BigEndian(s[n - 1], 8)
  }

  /** The one-shot hash of FIPS 180-4, with the length taken modulo 2^128. */
  function Hash(f: Compression, m: seq<byte>): (d: seq<byte>)
    ensures |d| == 64
  {
    WordBytes(Fold(f, INITIAL, Padded(m, BLOCK, BigEndian(8 * |m| % TWO128, 16)), BLOCK), 8)
  }

  class Context {
    const core: BlockBuffer<State>
    var bitsHi: u64
    var bitsLo: u64

    constructor (f: Compression)
      ensures Valid() && fresh(core) && fresh(core.buf) && core.compress == f && core.absorbed == []
    {
      core := new BlockBuffer(f, INITIAL, BLOCK);
      bitsHi, bitsLo := 0, 0;
    }

    ghost predicate Valid()
      reads this, core, core.buf
    {
      && core.Valid() && core.buf.Length == BLOCK && core.start == INITIAL
      && bitsHi * TWO64 + bitsLo == 8 * |core.absorbed| % TWO128
    }

    method Update(data: seq<byte>)
      requires Valid() && |data| < TWO64
      modifies this, core`state, core`buflen, core`absorbed, core.buf
      ensures Valid() && core.absorbed == old(core.absorbed) + data
    {
      var len := |data|;
      ghost var was := |core.absorbed|;
      CountBits(bitsHi, bitsLo, was, len);
      var shifted: u64 := len * 8 % TWO64;
      bitsLo := (bitsLo as nat + shifted as nat) % TWO64;
      bitsHi := (bitsHi as nat + len / 0x2000_0000_0000_0000) % TWO64;
      if bitsLo < shifted {
        bitsHi := (bitsHi as nat + 1) % TWO64;
      }
      core.Absorb(data);
    }

    method Final() returns (digest: seq<byte>)
      requires Valid()
      modifies core`state, core`buflen, core.buf
      ensures digest == Hash(core.compress, core.absorbed)
    {
      hide Hash, Fold, Padded, BigEndian, Word;
      LengthField(bitsHi, bitsLo);
      core.Finish(Word(bitsHi) + Word(bitsLo));
      digest := StateBytes(core.state);
      HashIs(core.compress, core.absorbed, Word(bitsHi) + Word(bitsLo));
    }
  }

  lemma HashIs(f: Compression, m: seq<byte>, length: seq<byte>)
    requires length == BigEndian(8 * |m| % TWO128, 16)
    ensures Hash(f, m) == WordBytes(Fold(f, INITIAL, Padded(m, BLOCK, length), BLOCK), 8)
  {
  }

  method StateBytes(s: State) returns (digest: seq<byte>)
    ensures digest == WordBytes(s, 8)
  {
    hide Word, BigEndian;
    digest := [];
    var i := 0;
    while i < 8
      invariant 0 <= i <= 8 && digest == WordBytes(s, i)
    {
      WordIsBigEndian(s[i]);
      digest := digest + Word(s[i]);
      i := i + 1;
    }
  }

  /** The two-word counter with its carry is the bit count modulo 2^128. */
  lemma CountBits(hi: u64, lo: u64, was: nat, len: nat)
    requires len < TWO64 && hi * TWO64 + lo == 8 * was % TWO128
    ensures var shifted := len * 8 % TWO64;
      var lo' := (lo + shifted) % TWO64;
      var hi' := (hi + len / 0x2000_0000_0000_0000) % TWO64;
      var hi'' := if lo' < shifted then (hi' + 1) % TWO64 else hi';
      hi'' * TWO64 + lo' == 8 * (was + len) % TWO128
  {
    var shifted, up := len * 8 % TWO64, len / 0x2000_0000_0000_0000;
    assert len * 8 == shifted + TWO64 * up;
    var c := LowCarry(lo, shifted);
    HighCarry(hi + up, c);
    WrapTop(8 * was, 8 * len, hi * TWO64 + lo, hi + up + c, (lo + shifted) % TWO64);
  }

  lemma LowCarry(lo: nat, shifted: nat) returns (c: nat)
    requires lo < TWO64 && shifted < TWO64
    ensures c == (if (lo + shifted) % TWO64 < shifted then 1 else 0)
    ensures lo + shifted == (lo + shifted) % TWO64 + TWO64 * c
  {
    c := if (lo + shifted) % TWO64 < shifted then 1 else 0;
  }

  lemma HighCarry(x: nat, c: nat)
    requires c <= 1
    ensures (x % TWO64 + c) % TWO64 == (x + c) % TWO64
  {
  }

  lemma WrapTop(a: nat, b: nat, x: nat, top: nat, lo: nat)
    requires x == a % TWO128 && x + b == top * TWO64 + lo && lo < TWO64
    ensures top % TWO64 * TWO64 + lo == (a + b) % TWO128
  {
    DivModUnique(a + b, TWO128, a / TWO128 + top / TWO64, top % TWO64 * TWO64 + lo);
  }

  /** word >> (56 - 8 i) for i from 0 to 7 */
  function Word(v: u64): (b: seq<byte>)
    ensures |b| == 8
  {
    seq(8, i requires 0 <= i < 8 => Shr(v, 56 - 8 * i) % 0x100)
  }

  lemma WordIsBigEndian(v: u64)
    ensures Word(v) == BigEndian(v, 8)
  {
    hide Shr, BigEndian;
    forall i | 0 <= i < 8 ensures Word(v)[i] == BigEndian(v, 8)[i] {
      BigEndianIndex(v, 8, i);
    }
  }

  lemma LengthField(hi: u64, lo: u64)
    ensures Word(hi) + Word(lo) == BigEndian(hi * TWO64 + lo, 16)
  {
    WordIsBigEndian(hi);
    WordIsBigEndian(lo);
    assert Pow2(8 * 8) == TWO64 by { Pow2Values(); }
    hide Word, BigEndian, Pow2;
    BigEndianSplit(hi, lo, 8, 8);
  }

  // ---------- what the hash is ----------

  lemma {:induction false} WordAt(s: State, n: nat, j: nat)
    requires j < n <= 8
    ensures BE(WordBytes(s, n)[8 * j..8 * j + 8]) == s[j]
  {
    var b := WordBytes(s, n);
    if j == n - 1 {
      assert b[8 * j..8 * j + 8] == BigEndian(s[j], 8);
      WordFits(s[j], 8);
    } else {
      WordAt(s, n - 1, j);
      assert b[8 * j..8 * j + 8] == WordBytes(s, n - 1)[8 * j..8 * j + 8];
    }
    hide BE, BigEndian;
  }

  lemma WordFits(w: u64, n: nat)
    requires n == 8
    ensures BE(BigEndian(w, n)) == w
  {
    Pow2Values();
    hide BE, BigEndian, Pow2;
    ReadBack(w, n);
  }

  lemma LengthFits(v: nat, n: nat)
    requires n == 16 && v < TWO128
    ensures BE(BigEndian(v, n)) == v
  {
    Pow2Values();
    hide BE, BigEndian, Pow2;
    ReadBack(v, n);
  }

  /** The hash as FIPS 180-4 defines it (sections 5.1 and 6): the message is followed by a one bit, k
      zero bits and its length in bits, cut into blocks, and chained from the initial value; the
      digest is the last value's words. */
  lemma HashMeaning(f: Compression, m: seq<byte>) returns (blocks: seq<seq<byte>>, h: seq<State>, k: nat)
    ensures k < 1024 && 8 * |m| + 1 + k + 128 == 1024 * |blocks|
    ensures BE(Joined(blocks)) == (2 * BE(m) + 1) * Pow2(k + 128) + 8 * |m| % TWO128
    ensures |h| == |blocks| + 1 && h[0] == INITIAL
    ensures forall i :: 0 <= i < |blocks| ==> |blocks[i]| == 128 && h[i + 1] == f(h[i], blocks[i])
    ensures forall j :: 0 <= j < 8 ==> BE(Hash(f, m)[8 * j..8 * j + 8]) == h[|blocks|][j]
  {
    var length := BigEndian(8 * |m| % TWO128, 16);
    LengthFits(8 * |m| % TWO128, 16);
    HashIs(f, m, length);
    PaddingFits(m, BLOCK, length);
    hide Hash, Fold, Padded, BE, BigEndian, Pow2, INITIAL, WordBytes;
    k := PaddedNumber(m, BLOCK, length);
    blocks, h := FoldChain(f, INITIAL, Padded(m, BLOCK, length), BLOCK);
    JoinedLength(blocks, BLOCK);
    forall j | 0 <= j < 8 ensures BE(Hash(f, m)[8 * j..8 * j + 8]) == h[|blocks|][j] {
      WordAt(h[|blocks|], 8, j);
    }
  }

  const PRIMES: seq<nat> := [2, 3, 5, 7, 11, 13, 17, 19]
  const ROOTS: seq<nat> := [1, 1, 2, 2, 3, 3, 4, 4]

  /** The initial value: the first 64 bits of the fractional parts of the square roots of the first
      eight primes. */
  lemma InitialWords(i: nat)
    requires i < 8
    ensures var x, p := ROOTS[i] * 0x1_0000_0000_0000_0000 + INITIAL[i], PRIMES[i];
      x * x <= p * (0x1_0000_0000_0000_0000 * 0x1_0000_0000_0000_0000) < (x + 1) * (x + 1)
  {
    if i == 0 { } else if i == 1 { } else if i == 2 { } else if i == 3 { }
    else if i == 4 { } else if i == 5 { } else if i == 6 { } else { }
  }
}
