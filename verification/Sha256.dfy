/** src/sha256.c: the SHA-256 streaming context and HMAC over it.  The compression function
    sha256_block is a parameter. */
module Sha256 {
  import opened Arithmetic
  import opened Bytes
  import opened StreamHash

  type State = s: seq<u32> | |s| == 8 witness [0, 0, 0, 0, 0, 0, 0, 0]
  type Compression = (State, seq<byte>) -> State

  const BLOCK: nat := 64
  const TWO64: nat := 0x1_0000_0000_0000_0000

  const INITIAL: State := [
    0x6a09e667, 0xbb67ae85, 0x3c6ef372, 0xa54ff53a, 0x510e527f, 0x9b05688c, 0x1f83d9ab, 0x5be0cd19]

  /** The first n words, big-endian. */
  function WordBytes(s: seq<u32>, n: nat): (b: seq<byte>)
    requires n <= |s|
    ensures |b| == 4 * n
  {
    if n == 0 then [] else WordBytes(s, n - 1) + BigEndian(s[n - 1], 4)
  }

  /** The one-shot hash of FIPS 180-4, with the length taken modulo 2^64. */
  function Hash(f: Compression, m: seq<byte>): (d: seq<byte>)
    ensures |d| == 32
  {
    WordBytes(Fold(f, INITIAL, Padded(m, BLOCK, BigEndian(8 * |m| % TWO64, 8)), BLOCK), 8)
  }

  class Context {
    const core: BlockBuffer<State>
    var bits: u64

    constructor (f: Compression)
      ensures Valid() && fresh(core) && fresh(core.buf) && core.compress == f && core.absorbed == []
    {
      core := new BlockBuffer(f, INITIAL, BLOCK);
      bits := 0;
    }

    ghost predicate Valid()
      reads this, core, core.buf
    {
      && core.Valid() && core.buf.Length == BLOCK && core.start == INITIAL
      && bits == 8 * |core.absorbed| % TWO64
    }

    method Update(data: seq<byte>)
      requires Valid()
      modifies this, core`state, core`buflen, core`absorbed, core.buf
      ensures Valid() && core.absorbed == old(core.absorbed) + data
    {
      CountBits(|core.absorbed|, |data|);
      bits := (bits as nat + |data| * 8 % TWO64) % TWO64;
      core.Absorb(data);
    }

    method Final() returns (digest: seq<byte>)
      requires Valid()
      modifies core`state, core`buflen, core.buf
      ensures digest == Hash(core.compress, core.absorbed)
    {
      hide Hash, Fold, Padded, BigEndian, LongWord;
      LongWordIsBigEndian(bits);
      core.Finish(LongWord(bits));
      digest := StateBytes(core.state);
      HashIs(core.compress, core.absorbed, LongWord(bits));
    }
  }

  /** The wrapping counter is the bit count modulo 2^64. */
  lemma CountBits(was: nat, len: nat)
    ensures (8 * was % TWO64 + len * 8 % TWO64) % TWO64 == 8 * (was + len) % TWO64
  {
    ModSum(8 * was, len * 8, TWO64);
  }

  lemma HashIs(f: Compression, m: seq<byte>, length: seq<byte>)
    requires length == BigEndian(8 * |m| % TWO64, 8)
    ensures Hash(f, m) == WordBytes(Fold(f, INITIAL, Padded(m, BLOCK, length), BLOCK), 8)
  {
  }

  /** bits >> (56 - 8 i) for i from 0 to 7 */
  function LongWord(v: u64): (b: seq<byte>)
    ensures |b| == 8
  {
    seq(8, i requires 0 <= i < 8 => Shr(v, 56 - 8 * i) % 0x100)
  }

  lemma LongWordIsBigEndian(v: u64)
    ensures LongWord(v) == BigEndian(v, 8)
  {
    hide Shr, BigEndian;
    forall i | 0 <= i < 8 ensures LongWord(v)[i] == BigEndian(v, 8)[i] {
      BigEndianIndex(v, 8, i);
    }
  }

  /** word >> (24 - 8 i) for i from 0 to 3 */
  function Word(v: u32): (b: seq<byte>)
    ensures |b| == 4
  {
    seq(4, i requires 0 <= i < 4 => Shr(v, 24 - 8 * i) % 0x100)
  }

  lemma WordIsBigEndian(v: u32)
    ensures Word(v) == BigEndian(v, 4)
  {
    hide Shr, BigEndian;
    forall i | 0 <= i < 4 ensures Word(v)[i] == BigEndian(v, 4)[i] {
      BigEndianIndex(v, 4, i);
    }
  }

  method StateBytes(s: State) returns (digest: seq<byte>)
    ensures digest == WordBytes(s, 8)
  {
    hide Word, BigEndian;
    digest := [];
    var i := 0;
    while i < 8
      invariant 0 <= i <= 8 && digest == WordBytes(s, i)
    {
      WordIsBigEndian(s[i]);
      digest := digest + Word(s[i]);
      i := i + 1;
    }
  }

  /** sha256(): one init, update, final. */
  method OneShot(f: Compression, m: seq<byte>) returns (digest: seq<byte>)
    ensures digest == Hash(f, m)
  {
    hide Hash;
    var c := new Context(f);
    c.Update(m);
    assert [] + m == m;
    digest := c.Final();
  }

  // ---------- what the hash is ----------

  lemma {:induction false} WordAt(s: State, n: nat, j: nat)
    requires j < n <= 8
    ensures BE(WordBytes(s, n)[4 * j..4 * j + 4]) == s[j]
  {
    var b := WordBytes(s, n);
    if j == n - 1 {
      assert b[4 * j..4 * j + 4] == BigEndian(s[j], 4);
      WordFits(s[j], 4);
    } else {
      WordAt(s, n - 1, j);
      assert b[4 * j..4 * j + 4] == WordBytes(s, n - 1)[4 * j..4 * j + 4];
    }
    hide BE, BigEndian;
  }

  lemma WordFits(w: u32, n: nat)
    requires n == 4
    ensures BE(BigEndian(w, n)) == w
  {
    Pow2Values();
    hide BE, BigEndian, Pow2;
    ReadBack(w, n);
  }

  lemma LengthFits(v: nat, n: nat)
    requires n == 8 && v < TWO64
    ensures BE(BigEndian(v, n)) == v
  {
    Pow2Values();
    hide BE, BigEndian, Pow2;
    ReadBack(v, n);
  }

  /** The hash as FIPS 180-4 defines it (sections 5.1 and 6): the message is followed by a one bit, k
      zero bits and its length in bits, cut into blocks, and chained from the initial value; the
      digest is the last value's words. */
  lemma HashMeaning(f: Compression, m: seq<byte>) returns (blocks: seq<seq<byte>>, h: seq<State>, k: nat)
    ensures k < 512 && 8 * |m| + 1 + k + 64 == 512 * |blocks|
    ensures BE(Joined(blocks)) == (2 * BE(m) + 1) * Pow2(k + 64) + 8 * |m| % TWO64
    ensures |h| == |blocks| + 1 && h[0] == INITIAL
    ensures forall i :: 0 <= i < |blocks| ==> |blocks[i]| == 64 && h[i + 1] == f(h[i], blocks[i])
    ensures forall j :: 0 <= j < 8 ==> BE(Hash(f, m)[4 * j..4 * j + 4]) == h[|blocks|][j]
  {
    var length := BigEndian(8 * |m| % TWO64, 8);
    LengthFits(8 * |m| % TWO64, 8);
    HashIs(f, m, length);
    PaddingFits(m, BLOCK, length);
    hide Hash, Fold, Padded, BE, BigEndian, Pow2, INITIAL, WordBytes;
    k := PaddedNumber(m, BLOCK, length);
    blocks, h := FoldChain(f, INITIAL, Padded(m, BLOCK, length), BLOCK);
    JoinedLength(blocks, BLOCK);
    forall j | 0 <= j < 8 ensures BE(Hash(f, m)[4 * j..4 * j + 4]) == h[|blocks|][j] {
      WordAt(h[|blocks|], 8, j);
    }
  }

  const PRIMES: seq<nat> := [2, 3, 5, 7, 11, 13, 17, 19]
  const ROOTS: seq<nat> := [1, 1, 2, 2, 3, 3, 4, 4]

  /** The initial value: the first 32 bits of the fractional parts of the square roots of the first
      eight primes. */
  lemma InitialWords(i: nat)
    requires i < 8
    ensures var x, p := ROOTS[i] * 0x1_0000_0000 + INITIAL[i], PRIMES[i];
      x * x <= p * (0x1_0000_0000 * 0x1_0000_0000) < (x + 1) * (x + 1)
  {
    if i == 0 { } else if i == 1 { } else if i == 2 { } else if i == 3 { }
    else if i == 4 { } else if i == 5 { } else if i == 6 { } else { }
  }

  // ---------- HMAC ----------

  /** The key filled to one block: hashed first when longer than a block. */
  function BlockKey(f: Compression, key: seq<byte>): (k: seq<byte>)
    ensures |k| == 64
  {
    var k := if |key| > 64 then Hash(f, key) else key;
    k + Zeros(64 - |k|)
  }

  function XorPad(k: seq<byte>, c: byte): (p: seq<byte>)
    ensures |p| == |k|
  {
    seq(|k|, i requires 0 <= i < |k| => XorByte(k[i], c))
  }

  /** H((K ^ opad) || H((K ^ ipad) || m)), section 2 of RFC 2104. */
  function Hmac(f: Compression, key: seq<byte>, m: seq<byte>): (d: seq<byte>)
    ensures |d| == 32
  {
    var k := BlockKey(f, key);
    Hash(f, XorPad(k, 0x5c) + Hash(f, XorPad(k, 0x36) + m))
  }

  /** HMAC byte by byte: the key, hashed if it is longer than 64 bytes and filled with zeros on the
      right, under the two pads. */
  lemma HmacMeaning(f: Compression, key: seq<byte>, m: seq<byte>) returns (inner: seq<byte>, outer: seq<byte>)
    ensures |inner| == 64 && |outer| == 64 && Hmac(f, key, m) == Hash(f, outer + Hash(f, inner + m))
    ensures var k := if |key| > 64 then Hash(f, key) else key;
      forall i :: 0 <= i < 64 ==>
        var b := if i < |k| then k[i] else 0; inner[i] == XorByte(b, 0x36) && outer[i] == XorByte(b, 0x5c)
  {
    hide Hash, XorByte;
    inner, outer := XorPad(BlockKey(f, key), 0x36), XorPad(BlockKey(f, key), 0x5c);
  }

  method FillKey(f: Compression, key: seq<byte>) returns (k: seq<byte>)
    ensures k == BlockKey(f, key)
  {
    hide Hash;
    k := key;
    if |key| > 64 {
      k := OneShot(f, key);
    }
    k := k + Zeros(64 - |k|);
  }

  /** A context that has absorbed one string. */
  method Started(f: Compression, data: seq<byte>) returns (c: Context)
    ensures fresh(c) && fresh(c.core) && fresh(c.core.buf)
    ensures c.Valid() && c.core.compress == f && c.core.absorbed == data
  {
    c := new Context(f);
    c.Update(data);
    assert [] + data == data;
  }

  class HmacContext {
    const inner: Context
    const outer: Context

    ghost predicate Separate()
    {
      && inner != outer && inner.core != outer.core && inner.core.buf != outer.core.buf
    }

    ghost predicate Valid()
      reads inner, inner.core, inner.core.buf, outer, outer.core, outer.core.buf
    {
      Separate() && inner.Valid() && outer.Valid() && inner.core.compress == outer.core.compress
    }

    constructor (f: Compression, key: seq<byte>)
      ensures Valid() && inner.core.compress == f
      ensures fresh(inner) && fresh(inner.core) && fresh(inner.core.buf)
      ensures fresh(outer) && fresh(outer.core) && fresh(outer.core.buf)
      ensures inner.core.absorbed == XorPad(BlockKey(f, key), 0x36)
      ensures outer.core.absorbed == XorPad(BlockKey(f, key), 0x5c)
    {
      hide BlockKey, XorPad;
      var k := FillKey(f, key);
      var i := Started(f, XorPad(k, 0x36));
      var o := Started(f, XorPad(k, 0x5c));
      inner, outer := i, o;
    }

    method Update(data: seq<byte>)
      requires Valid()
      modifies inner, inner.core`state, inner.core`buflen, inner.core`absorbed, inner.core.buf
      ensures Valid() && inner.core.absorbed == old(inner.core.absorbed) + data
    {
      inner.Update(data);
    }

    method Final() returns (digest: seq<byte>)
      requires Valid()
      modifies inner.core`state, inner.core`buflen, inner.core.buf
      modifies outer, outer.core`state, outer.core`buflen, outer.core`absorbed, outer.core.buf
      ensures digest == Hash(inner.core.compress,
        old(outer.core.absorbed) + Hash(inner.core.compress, old(inner.core.absorbed)))
    {
      hide Hash;
      var idig := inner.Final();
      outer.Update(idig);
      digest := outer.Final();
    }
  }

  /** Streaming HMAC over any split of the message is the nested formula. */
  method HmacOfPieces(f: Compression, key: seq<byte>, pieces: seq<seq<byte>>) returns (digest: seq<byte>)
    ensures digest == Hmac(f, key, Joined(pieces))
  {
    hide Hash, XorPad, BlockKey;
    var h := new HmacContext(f, key);
    UpdateAll(h, pieces);
    digest := h.Final();
  }

  method UpdateAll(h: HmacContext, pieces: seq<seq<byte>>)
    requires h.Valid()
    modifies h.inner, h.inner.core`state, h.inner.core`buflen, h.inner.core`absorbed, h.inner.core.buf
    ensures h.Valid() && h.inner.core.absorbed == old(h.inner.core.absorbed) + Joined(pieces)
  {
    ghost var pad := h.inner.core.absorbed;
    hide Fold, Rest;
    assert pad + Joined(pieces[..0]) == pad;
    var i := 0;
    while i < |pieces|
      invariant 0 <= i <= |pieces| && h.Valid()
      invariant h.inner.core.absorbed == pad + Joined(pieces[..i])
    {
      JoinedNext(pieces, i);
      assert pad + Joined(pieces[..i]) + pieces[i] == pad + Joined(pieces[..i + 1]);
      h.Update(pieces[i]);
      i := i + 1;
    }
    assert pieces[..|pieces|] == pieces;
  }

  lemma {:induction false} JoinedNext(pieces: seq<seq<byte>>, i: nat)
    requires i < |pieces|
    ensures Joined(pieces[..i + 1]) == Joined(pieces[..i]) + pieces[i]
  {
    if i == 0 {
      assert pieces[..1][1..] == [];
    } else {
      assert pieces[..i + 1][1..] == pieces[1..][..i] && pieces[..i][1..] == pieces[1..][..i - 1];
      JoinedNext(pieces[1..], i - 1);
    }
  }
}
