/** The block buffering that src/sha256.c and src/sha512.c share line for line: a chaining
    state, a partly filled block, and an update that compresses every completed block.  The
    compression function is a parameter, so what is proved holds for any of them. */
module StreamHash {
  import opened Arithmetic
  import opened Bytes

  // ---------- the reference ----------

  /** The chaining value after every complete n-byte block of data. */
  function Fold<S>(f: (S, seq<byte>) -> S, s: S, data: seq<byte>, n: nat): S
    requires 0 < n
  {
    if |data| < n then s else Fold(f, f(s, data[..n]), data[n..], n)
  }

  /** The bytes left over after the complete blocks. */
  function Rest(data: seq<byte>, n: nat): (r: seq<byte>)
    requires 0 < n
    ensures |r| < n
  {
    if |data| < n then data else Rest(data[n..], n)
  }

  /** Folding may stop and resume anywhere: after a, only its leftover bytes matter. */
  lemma {:induction false} FoldAppend<S>(f: (S, seq<byte>) -> S, s: S, a: seq<byte>, b: seq<byte>, n: nat)
    requires 0 < n
    ensures Fold(f, s, a + b, n) == Fold(f, Fold(f, s, a, n), Rest(a, n) + b, n)
    ensures Rest(a + b, n) == Rest(Rest(a, n) + b, n)
  {
    if |a| < n {
    } else {
      assert (a + b)[..n] == a[..n] && (a + b)[n..] == a[n..] + b;
      FoldAppend(f, f(s, a[..n]), a[n..], b, n);
    }
  }

  lemma {:induction false} RestLength(data: seq<byte>, n: nat)
    requires 0 < n
    ensures |Rest(data, n)| == |data| % n
  {
    if |data| < n {
      DivModUnique(|data|, n, 0, |data|);
    } else {
      RestLength(data[n..], n);
      DivMod(|data| - n, n);
      var q, r := (|data| - n) / n, (|data| - n) % n;
      assert (q + 1) * n == q * n + n;
      DivModUnique(|data|, n, q + 1, r);
    }
  }

  lemma OneBlock<S>(f: (S, seq<byte>) -> S, s: S, b: seq<byte>, n: nat)
    requires 0 < n && |b| == n
    ensures Fold(f, s, b, n) == f(s, b) && Rest(b, n) == []
  {
    assert b[..n] == b && b[n..] == [];
  }

  /** The n low bytes of v, most significant first. */
  function BigEndian(v: nat, n: nat): (s: seq<byte>)
    ensures |s| == n
  {
    if n == 0 then [] else BigEndian(v / 0x100, n - 1) + [v % 0x100]
  }

  lemma {:induction false} BigEndianIndex(v: nat, n: nat, i: nat)
    requires i < n
    ensures BigEndian(v, n)[i] == Shr(v, 8 * (n - 1 - i)) % 0x100
  {
    if i == n - 1 {
    } else {
      hide Pow2;
      BigEndianIndex(v / 0x100, n - 1, i);
      Pow2Byte(n - 2 - i);
      DivDiv(v, 0x100, Pow2(8 * (n - 2 - i)));
    }
  }

  /** Two words written one after the other are the two-word number. */
  lemma {:induction false} BigEndianSplit(hi: nat, lo: nat, m: nat, n: nat)
    requires lo < Pow2(8 * n)
    ensures BigEndian(hi * Pow2(8 * n) + lo, m + n) == BigEndian(hi, m) + BigEndian(lo, n)
  {
    if n == 0 {
      assert hi * Pow2(0) == hi;
    } else {
      Pow2Byte(n - 1);
      hide Pow2;
      var w := Pow2(8 * (n - 1));
      assert hi * (0x100 * w) == 0x100 * (hi * w);
      var v := hi * Pow2(8 * n) + lo;
      assert v / 0x100 == hi * w + lo / 0x100 && v % 0x100 == lo % 0x100;
      BigEndianSplit(hi, lo / 0x100, m, n - 1);
    }
  }

  /** The number a big-endian byte string stands for. */
  function BE(s: seq<byte>): nat {
    if s == [] then 0 else BE(s[..|s| - 1]) * 0x100 + s[|s| - 1]
  }

  lemma {:induction false} BigEndianBE(s: seq<byte>)
    ensures BigEndian(BE(s), |s|) == s
  {
    if s != [] {
      var t := s[..|s| - 1];
      BigEndianBE(t);
      assert BE(s) / 0x100 == BE(t) && BE(s) % 0x100 == s[|s| - 1];
      assert s == t + [s[|s| - 1]];
    }
  }

  /** Strings of equal length stand for equal numbers only if they are equal. */
  lemma SameLength(s: seq<byte>, t: seq<byte>)
    requires |s| == |t| && BE(s) == BE(t)
    ensures s == t
  {
    BigEndianBE(s);
    BigEndianBE(t);
    hide BE, BigEndian;
  }

  lemma BEAppend(s: seq<byte>, b: byte)
    ensures BE(s + [b]) == BE(s) * 0x100 + b
  {
    assert (s + [b])[..|s|] == s;
  }

  lemma {:induction false} ReadBack(v: nat, n: nat)
    requires v < Pow2(8 * n)
    ensures BE(BigEndian(v, n)) == v
  {
    if n > 0 {
      Pow2Byte(n - 1);
      ReadBack(v / 0x100, n - 1);
      var t := BigEndian(v / 0x100, n - 1);
      assert BigEndian(v, n)[..n - 1] == t;
    }
  }

  lemma FourBytes(n: nat, k: nat)
    requires k == 4 && n < 0x1_0000_0000
    ensures BE(BigEndian(n, k)) == n
  {
    Pow2Values();
    hide BE, BigEndian;
    ReadBack(n, k);
  }

  /** Strings written one after the other. */
  lemma {:induction false} BEConcat(a: seq<byte>, b: seq<byte>)
    ensures BE(a + b) == BE(a) * Pow2(8 * |b|) + BE(b)
  {
    if b == [] {
      assert a + b == a;
    } else {
      hide BE, Pow2;
      var t, c := b[..|b| - 1], b[|b| - 1];
      BEConcat(a, t);
      BEAppend(a + t, c);
      BEAppend(t, c);
      assert a + b == (a + t) + [c] && b == t + [c];
      Pow2Byte(|t|);
      ScaleByte(BE(a), Pow2(8 * |t|), BE(t));
    }
  }

  lemma ScaleByte(a: nat, p: nat, x: nat)
    ensures (a * p + x) * 0x100 == a * (0x100 * p) + x * 0x100
  {
    MulAssoc(a, 0x100, p);
  }

  /** Pieces put together. */
  function Joined(pieces: seq<seq<byte>>): seq<byte> {
    if pieces == [] then [] else pieces[0] + Joined(pieces[1..])
  }

  // ---------- padding ----------

  function Zeros(k: nat): (s: seq<byte>)
    ensures |s| == k
  {
    seq(k, _ => 0)
  }

  /** How many zero bytes follow the 0x80 so that l length bytes end a block. */
  function ZeroCount(len: nat, n: nat, l: nat): nat
    requires l + 1 <= n
  {
    if len % n + 1 + l <= n then n - l - 1 - len % n else 2 * n - l - 1 - len % n
  }

  /** The message, the bit 1, zeros, and the encoded length (FIPS 180-4, section 5.1). */
  function Padded(m: seq<byte>, n: nat, length: seq<byte>): seq<byte>
    requires |length| + 1 <= n
  {
    m + ([0x80] + Zeros(ZeroCount(|m|, n, |length|)) + length)
  }

  /** The padded message is a whole number of blocks and no shorter zero run would do. */
  lemma PaddingFits(m: seq<byte>, n: nat, length: seq<byte>)
    requires |length| + 1 <= n
    ensures |Padded(m, n, length)| % n == 0 && ZeroCount(|m|, n, |length|) < n
  {
    var q, r := |m| / n, |m| % n;
    DivMod(|m|, n);
    if r + 1 + |length| <= n {
      MulAdd(q, 1, n);
      DivModUnique(|Padded(m, n, length)|, n, q + 1, 0);
    } else {
      MulAdd(q, 2, n);
      DivModUnique(|Padded(m, n, length)|, n, q + 2, 0);
    }
  }

  lemma {:induction false} BEZeros(k: nat)
    ensures BE(Zeros(k)) == 0
  {
    if k > 0 {
      BEZeros(k - 1);
      assert Zeros(k) == Zeros(k - 1) + [0];
      BEAppend(Zeros(k - 1), 0);
    }
  }

  /** The padded message as FIPS 180-4, section 5.1, defines it in bits: a one bit, k zero bits with
      k as small as possible, and the length field. */
  lemma PaddedNumber(m: seq<byte>, n: nat, length: seq<byte>) returns (k: nat)
    requires |length| + 1 <= n
    ensures k < 8 * n && (8 * |m| + 1 + k + 8 * |length|) % (8 * n) == 0
    ensures 8 * |Padded(m, n, length)| == 8 * |m| + 1 + k + 8 * |length|
    ensures BE(Padded(m, n, length)) == (2 * BE(m) + 1) * Pow2(k + 8 * |length|) + BE(length)
  {
    var z, l := ZeroCount(|m|, n, |length|), |length|;
    k := 7 + 8 * z;
    PaddingFits(m, n, length);
    EightTimes(|Padded(m, n, length)|, n);
    var tail := [0x80] + Zeros(z) + length;
    hide BE, Pow2, ZeroCount, Zeros;
    BEConcat(m, tail);
    BEConcat([0x80] + Zeros(z), length);
    BEConcat([0x80], Zeros(z));
    BEZeros(z);
    assert BE([0x80]) == 0x80 by { BEAppend([], 0x80); EmptyNumber(); assert [] + [0x80] == [0x80]; }
    PaddingWeights(z, l);
    PaddingSum(BE(m), Pow2(8 * z), Pow2(8 * l), Pow2(k + 8 * l), Pow2(8 * |tail|), BE(length));
  }

  lemma EmptyNumber()
    ensures BE([]) == 0
  {
  }

  lemma EightTimes(x: nat, n: nat)
    requires n > 0 && x % n == 0
    ensures (8 * x) % (8 * n) == 0
  {
    DivMod(x, n);
    MulAssoc(x / n, n, 8);
    DivModUnique(8 * x, 8 * n, x / n, 0);
  }

  lemma PaddingWeights(z: nat, l: nat)
    ensures Pow2(7 + 8 * z + 8 * l) == 0x80 * (Pow2(8 * z) * Pow2(8 * l))
    ensures Pow2(8 * (1 + z + l)) == 2 * Pow2(7 + 8 * z + 8 * l)
  {
    Pow2Add(8 * z, 8 * l);
    Pow2Add(7, 8 * z + 8 * l);
    assert Pow2(7) == 0x80;
    Pow2Double(7 + 8 * z + 8 * l);
  }

  lemma PaddingSum(x: nat, u: nat, v: nat, w: nat, t: nat, y: nat)
    requires w == 0x80 * (u * v) && t == 2 * w
    ensures x * t + ((0x80 * u + 0) * v + y) == (2 * x + 1) * w + y
  {
    MulAssoc(0x80, u, v);
    MulAssoc(x, 2, w);
  }

  /** The blocks of a string and the chaining values over them. */
  lemma {:induction false} FoldChain<S>(f: (S, seq<byte>) -> S, s: S, data: seq<byte>, n: nat)
    returns (blocks: seq<seq<byte>>, h: seq<S>)
    requires 0 < n && |data| % n == 0
    ensures Joined(blocks) == data && |h| == |blocks| + 1 && h[0] == s && h[|blocks|] == Fold(f, s, data, n)
    ensures forall i :: 0 <= i < |blocks| ==> |blocks[i]| == n && h[i + 1] == f(h[i], blocks[i])
  {
    if |data| < n {
      blocks, h := [], [s];
      DivModUnique(|data|, n, 0, |data|);
    } else {
      BlockLess(|data|, n);
      var bs, hs := FoldChain(f, f(s, data[..n]), data[n..], n);
      blocks, h := [data[..n]] + bs, [s] + hs;
      assert blocks[1..] == bs && data[..n] + data[n..] == data;
      forall i | 0 <= i < |blocks| ensures |blocks[i]| == n && h[i + 1] == f(h[i], blocks[i]) {
        if i > 0 { assert blocks[i] == bs[i - 1] && h[i] == hs[i - 1] && h[i + 1] == hs[i]; }
      }
    }
  }

  lemma {:induction false} JoinedLength(blocks: seq<seq<byte>>, n: nat)
    requires forall i :: 0 <= i < |blocks| ==> |blocks[i]| == n
    ensures |Joined(blocks)| == |blocks| * n
  {
    if blocks != [] {
      JoinedLength(blocks[1..], n);
      MulAdd(1, |blocks| - 1, n);
    }
  }

  lemma BlockLess(x: nat, n: nat)
    requires 0 < n <= x && x % n == 0
    ensures (x - n) % n == 0
  {
    DivMod(x, n);
    MulAdd(x / n, -1, n);
    DivModUnique(x - n, n, x / n - 1, 0);
  }

  // ---------- the context ----------

  class BlockBuffer<S> {
    const compress: (S, seq<byte>) -> S
    const start: S
    const buf: array<byte>
    var state: S
    var buflen: nat
    ghost var absorbed: seq<byte>

    constructor (f: (S, seq<byte>) -> S, iv: S, n: nat)
      requires 0 < n
      ensures Valid() && fresh(buf) && compress == f && start == iv && buf.Length == n && absorbed == []
    {
      compress, start, state, buflen, absorbed := f, iv, iv, 0, [];
      buf := new byte[n];
    }

    /** The state is the fold of everything absorbed; the buffer holds its leftover bytes. */
    ghost predicate Valid()
      reads this, buf
    {
      && 0 < buf.Length && buflen < buf.Length
      && state == Fold(compress, start, absorbed, buf.Length)
      && buf[..buflen] == Rest(absorbed, buf.Length)
    }

    /** What is still to be folded once `more` arrives. */
    ghost predicate Owes(more: seq<byte>, total: seq<byte>)
      reads this, buf
    {
      && 0 < buf.Length && buflen < buf.Length
      && Fold(compress, state, buf[..buflen] + more, buf.Length) == Fold(compress, start, total, buf.Length)
      && Rest(buf[..buflen] + more, buf.Length) == Rest(total, buf.Length)
    }

    /** The body of both update functions. */
    method Absorb(data: seq<byte>)
      requires Valid()
      modifies this`state, this`buflen, this`absorbed, buf
      ensures Valid() && absorbed == old(absorbed) + data
    {
      FoldAppend(compress, start, absorbed, data, buf.Length);
      absorbed := absorbed + data;
      var p := TopUp(data, absorbed);
      if buflen == 0 {
        Whole(p, absorbed);
      }
    }

    /** Completes a partly filled block; what does not fit is returned. */
    method TopUp(data: seq<byte>, ghost total: seq<byte>) returns (p: seq<byte>)
      requires Owes(data, total)
      modifies this`state, this`buflen, buf
      ensures Owes(p, total)
      ensures buflen > 0 ==> p == [] && buf[..buflen] == Rest(total, buf.Length)
      ensures buflen > 0 ==> state == Fold(compress, start, total, buf.Length)
    {
      var n := buf.Length;
      p := data;
      if buflen > 0 {
        ghost var pending := buf[..buflen] + data;
        var need := n - buflen;
        var take := if |p| < need then |p| else need;
        CopyIn(buf, buflen, p[..take]);
        buflen := buflen + take;
        p := p[take..];
        if buflen == n {
          assert pending[..n] == buf[..] && pending[n..] == p;
          state := compress(state, buf[..]);
          buflen := 0;
          assert buf[..0] + p == p;
        } else {
          assert pending == buf[..buflen] && buf[..buflen] + p == buf[..buflen];
        }
      }
    }

    /** Compresses whole blocks from the input and keeps the remainder. */
    method Whole(data: seq<byte>, ghost total: seq<byte>)
      requires Owes(data, total) && buflen == 0
      modifies this`state, this`buflen, buf
      ensures buflen < buf.Length && buf[..buflen] == Rest(total, buf.Length)
      ensures state == Fold(compress, start, total, buf.Length)
    {
      var n := buf.Length;
      var p := data;
      assert buf[..0] + p == p;
      while |p| >= n
        invariant Fold(compress, state, p, n) == Fold(compress, start, total, n)
        invariant Rest(p, n) == Rest(total, n) && buflen == 0
        decreases |p|
      {
        state := compress(state, p[..n]);
        p := p[n..];
      }
      if |p| > 0 {
        CopyIn(buf, 0, p);
        buflen := |p|;
      }
    }

    /** The body of both final functions: 0x80, zeros, the length, and the last block or two. */
    method Finish(length: seq<byte>)
      requires Valid() && |length| + 1 <= buf.Length
      modifies this`state, this`buflen, buf
      ensures state == Fold(compress, start, Padded(absorbed, buf.Length, length), buf.Length)
    {
      var n, l := buf.Length, |length|;
      ghost var tail := [0x80] + Zeros(ZeroCount(|absorbed|, n, l)) + length;
      FoldAppend(compress, start, absorbed, tail, n);
      RestLength(absorbed, n);
      ghost var z := ZeroCount(|absorbed|, n, l);
      ghost var total := Fold(compress, start, Padded(absorbed, n, length), n);
      assert z == if buflen + 1 + l <= n then n - l - 1 - buflen else 2 * n - l - 1 - buflen;
      hide Fold, Rest, ZeroCount, Zeros;
      assert Fold(compress, state, buf[..buflen] + tail, n) == total;
      ghost var marked := buf[..buflen] + [0x80];
      assert buf[..buflen] + tail == marked + Zeros(z) + length;
      buf[buflen] := 0x80;
      buflen := buflen + 1;
      assert buf[..buflen] == marked;
      if buflen > n - l {
        z := Spill(z, length, total);
      }
      ghost var last, s := buf[..buflen] + Zeros(z) + length, state;
      Close(length, last);
      OneBlock(compress, s, last, n);
    }

    /** No room for the length: zeros to the end of the block, and compress it. */
    method Spill(ghost z: nat, ghost length: seq<byte>, ghost total: S) returns (ghost z': nat)
      requires 0 < buflen <= buf.Length && |length| <= buf.Length
      requires buflen + z + |length| == 2 * buf.Length
      requires Fold(compress, state, buf[..buflen] + Zeros(z) + length, buf.Length) == total
      modifies this`state, this`buflen, buf
      ensures buflen == 0 && z' + |length| == buf.Length
      ensures Fold(compress, state, buf[..buflen] + Zeros(z') + length, buf.Length) == total
    {
      var n := buf.Length;
      ghost var owed := buf[..buflen] + Zeros(z) + length;
      Clear(buf, buflen, n);
      assert owed[..n] == buf[..];
      state := compress(state, buf[..]);
      z' := n - |length|;
      buflen := 0;
      assert owed[n..] == buf[..0] + Zeros(z') + length;
    }

    /** The last block: zeros up to the length field, the length, and its compression. */
    method Close(length: seq<byte>, ghost last: seq<byte>)
      requires buflen + |length| <= buf.Length
      requires last == buf[..buflen] + Zeros(buf.Length - |length| - buflen) + length
      modifies this`state, buf
      ensures state == compress(old(state), last)
    {
      var n, l := buf.Length, |length|;
      Clear(buf, buflen, n - l);
      CopyIn(buf, n - l, length);
      assert last == buf[..];
      state := compress(state, buf[..]);
    }
  }

  /** memset(buf + from, 0, to - from) */
  method Clear(buf: array<byte>, from: nat, to: nat)
    requires from <= to <= buf.Length
    modifies buf
    ensures buf[..] == old(buf[..from]) + Zeros(to - from) + old(buf[to..])
  {
    ghost var was := buf[..];
    var i := from;
    while i < to
      invariant from <= i <= to
      invariant forall k :: from <= k < i ==> buf[k] == 0
      invariant forall k :: 0 <= k < from || i <= k < buf.Length ==> buf[k] == was[k]
    {
      buf[i] := 0;
      i := i + 1;
    }
  }

  /** memcpy(buf + at, src, |src|) */
  method CopyIn(buf: array<byte>, at: nat, src: seq<byte>)
    requires at + |src| <= buf.Length
    modifies buf
    ensures buf[..] == old(buf[..at]) + src + old(buf[at + |src|..])
  {
    ghost var was := buf[..];
    var i := 0;
    while i < |src|
      invariant 0 <= i <= |src|
      invariant forall k :: 0 <= k < i ==> buf[at + k] == src[k]
      invariant forall k :: 0 <= k < at || at + i <= k < buf.Length ==> buf[k] == was[k]
    {
      buf[at + i] := src[i];
      i := i + 1;
    }
  }
}
