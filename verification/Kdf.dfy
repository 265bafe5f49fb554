/** src/kex.c, kex_derive_key: the key expansion of RFC 4253, section 7.2. */
module Kdf {
  import opened Bytes
  import opened StreamHash
  import Sha256

  type Compression = Sha256.Compression

  /** K1 || K2 || ... || Kn with K1 = HASH(K || H || X || session_id) and
      K(i + 1) = HASH(K || H || K1 || ... || Ki). */
  function KeyBlocks(f: Compression, k: seq<byte>, h: seq<byte>, x: byte, id: seq<byte>, n: nat): (s: seq<byte>)
    requires n >= 1
    ensures |s| == 32 * n
  {
    if n == 1 then Sha256.Hash(f, k + h + [x] + id)
    else
      var s := KeyBlocks(f, k, h, x, id, n - 1);
      s + Sha256.Hash(f, k + h + s)
  }

  /** Blocks needed for len bytes. */
  function BlockCount(len: nat): (n: nat)
    requires len >= 1
    ensures n >= 1 && 32 * (n - 1) < len <= 32 * n
  {
    (len + 31) / 32
  }

  /** The first len bytes of the infinite block sequence. */
  function DerivedKey(f: Compression, k: seq<byte>, h: seq<byte>, x: byte, id: seq<byte>, len: nat): (s: seq<byte>)
    requires len >= 1
    ensures |s| == len
  {
    KeyBlocks(f, k, h, x, id, BlockCount(len))[..len]
  }

  lemma {:induction false} BlocksExtend(f: Compression, k: seq<byte>, h: seq<byte>, x: byte, id: seq<byte>, m: nat, n: nat)
    requires 1 <= m <= n
    ensures KeyBlocks(f, k, h, x, id, m) <= KeyBlocks(f, k, h, x, id, n)
  {
    hide KeyBlocks, Sha256.Hash;
    if m < n {
      BlocksExtend(f, k, h, x, id, m, n - 1);
      NextIs(f, k, h, x, id, n - 1);
    }
  }

  /** The derived key is the first len bytes of however many blocks are computed. */
  lemma AnyBlocks(f: Compression, k: seq<byte>, h: seq<byte>, x: byte, id: seq<byte>, len: nat, n: nat)
    requires len >= 1 && n >= BlockCount(len)
    ensures KeyBlocks(f, k, h, x, id, n)[..len] == DerivedKey(f, k, h, x, id, len)
  {
    BlocksExtend(f, k, h, x, id, BlockCount(len), n);
    hide KeyBlocks;
  }

  /** A shorter key is a prefix of a longer one derived from the same inputs. */
  lemma ShorterIsPrefix(f: Compression, k: seq<byte>, h: seq<byte>, x: byte, id: seq<byte>, short: nat, long: nat)
    requires 1 <= short <= long
    ensures DerivedKey(f, k, h, x, id, short) == DerivedKey(f, k, h, x, id, long)[..short]
  {
    var n := BlockCount(long);
    BlocksExtend(f, k, h, x, id, BlockCount(short), n);
    hide KeyBlocks;
  }

  /** The key as section 7.2 of RFC 4253 has it: it starts with HASH(K || H || X || session_id), and
      whatever blocks it has so far, the next one is the HASH of K, H and those. */
  lemma KeyMeaning(f: Compression, k: seq<byte>, h: seq<byte>, x: byte, id: seq<byte>, len: nat, n: nat)
    requires 32 * n + 32 <= len
    ensures var key := DerivedKey(f, k, h, x, id, len);
      key[32 * n..32 * n + 32] == Sha256.Hash(f, k + h + if n == 0 then [x] + id else key[..32 * n])
  {
    hide Sha256.Hash, KeyBlocks;
    var m := BlockCount(len);
    BlocksExtend(f, k, h, x, id, n + 1, m);
    var all := KeyBlocks(f, k, h, x, id, m);
    var part := KeyBlocks(f, k, h, x, id, n + 1);
    PrefixSlices(part, all, 32 * n, len);
    if n == 0 {
      FirstIs(f, k, h, x, id);
      assert k + h + [x] + id == k + h + ([x] + id);
    } else {
      NextIs(f, k, h, x, id, n);
    }
  }

  lemma PrefixSlices(a: seq<byte>, b: seq<byte>, n: nat, len: nat)
    requires a <= b && n + 32 == |a| <= len <= |b|
    ensures b[..len][n..n + 32] == a[n..] && b[..len][..n] == a[..n]
  {
  }

  /** A hash that has taken in K || H, as every block's starts. */
  method Start(f: Compression, k: seq<byte>, h: seq<byte>) returns (c: Sha256.Context)
    ensures fresh(c) && fresh(c.core) && fresh(c.core.buf)
    ensures c.Valid() && c.core.compress == f && c.core.absorbed == k + h
  {
    c := new Sha256.Context(f);
    c.Update(k);
    assert [] + k == k;
    c.Update(h);
  }

  method FirstBlock(f: Compression, k: seq<byte>, h: seq<byte>, x: byte, id: seq<byte>) returns (digest: seq<byte>)
    ensures digest == Sha256.Hash(f, k + h + [x] + id)
  {
    hide Sha256.Hash;
    var c := Start(f, k, h);
    c.Update([x]);
    c.Update(id);
    digest := c.Final();
  }

  method NextBlock(f: Compression, k: seq<byte>, h: seq<byte>, sofar: seq<byte>) returns (digest: seq<byte>)
    ensures digest == Sha256.Hash(f, k + h + sofar)
  {
    hide Sha256.Hash;
    var c := Start(f, k, h);
    c.Update(sofar);
    digest := c.Final();
  }

  /** kex_derive_key: fails exactly for an empty key; otherwise fills the buffer. */
  method DeriveKey(f: Compression, letter: byte, k: seq<byte>, h: seq<byte>, sessionId: seq<byte>, out: array<byte>)
    returns (ok: bool)
    modifies out
    ensures ok <==> out.Length > 0
    ensures ok ==> out[..] == DerivedKey(f, k, h, letter, sessionId, out.Length)
  {
    hide KeyBlocks, Sha256.Hash;
    var keyLen := out.Length;
    if keyLen == 0 { return false; }
    var digest := FirstBlock(f, k, h, letter, sessionId);
    FirstIs(f, k, h, letter, sessionId);
    var chunk := if keyLen < 32 then keyLen else 32;
    CopyIn(out, 0, digest[..chunk]);
    var written := chunk;
    ghost var n := 1;
    while written < keyLen
      invariant n >= 1 && written <= keyLen && written == (if keyLen < 32 * n then keyLen else 32 * n)
      invariant out[..written] == KeyBlocks(f, k, h, letter, sessionId, n)[..written]
    {
      ghost var s := KeyBlocks(f, k, h, letter, sessionId, n);
      assert out[..written] == s;
      digest := NextBlock(f, k, h, out[..written]);
      NextIs(f, k, h, letter, sessionId, n);
      chunk := if keyLen - written < 32 then keyLen - written else 32;
      CopyIn(out, written, digest[..chunk]);
      assert out[..written + chunk] == s + digest[..chunk] == (s + digest)[..written + chunk];
      written := written + chunk;
      n := n + 1;
    }
    AnyBlocks(f, k, h, letter, sessionId, keyLen, n);
    assert out[..written] == out[..];
    ok := true;
  }

  lemma FirstIs(f: Compression, k: seq<byte>, h: seq<byte>, x: byte, id: seq<byte>)
    ensures KeyBlocks(f, k, h, x, id, 1) == Sha256.Hash(f, k + h + [x] + id)
  {
  }

  lemma NextIs(f: Compression, k: seq<byte>, h: seq<byte>, x: byte, id: seq<byte>, n: nat)
    requires n >= 1
    ensures var s := KeyBlocks(f, k, h, x, id, n);
      KeyBlocks(f, k, h, x, id, n + 1) == s + Sha256.Hash(f, k + h + s)
  {
    hide Sha256.Hash;
  }
}
