/** src/aes.c, counter mode (NIST SP 800-38A, section 6.5): a keystream that is consumed byte
    by byte and is continuous across calls. */
module Ctr {
  import opened Arithmetic
  import opened Bytes
  import opened StreamHash
  import opened Aes

  // ---------- the counter ----------

  /** Two numbers write the same n bytes exactly when they agree modulo 2^(8 n). */
  lemma {:induction false} SameBigEndian(v: nat, w: nat, n: nat)
    requires BigEndian(v, n) == BigEndian(w, n)
    ensures Cong(v, w, Pow2(8 * n))
  {
    if n == 0 {
      CongIntro(v, w, v as int - w, 1);
    } else {
      var a, b := BigEndian(v / 0x100, n - 1), BigEndian(w / 0x100, n - 1);
      assert BigEndian(v, n)[..n - 1] == a && BigEndian(v, n)[n - 1] == v % 0x100;
      assert BigEndian(w, n)[..n - 1] == b && BigEndian(w, n)[n - 1] == w % 0x100;
      SameBigEndian(v / 0x100, w / 0x100, n - 1);
      hide BigEndian, Pow2, Cong;
      Pow2Byte(n - 1);
      ByteCong(v, w, Pow2(8 * (n - 1)));
    }
  }

  lemma ByteCong(v: nat, w: nat, m: nat)
    requires 0 < m && Cong(v / 0x100, w / 0x100, m) && v % 0x100 == w % 0x100
    ensures Cong(v, w, 0x100 * m)
  {
    var k := CongElim(v / 0x100, w / 0x100, m);
    hide Cong;
    MulAssoc(k, 0x100, m);
    assert 0x100 * (k * m) == k * (0x100 * m);
    CongIntro(v, w, k, 0x100 * m);
  }

  /** Block number j of a stream: the initial counter plus j, modulo 2^128. */
  function CounterBlock(iv: seq<byte>, j: nat): (b: seq<byte>)
    requires |iv| == 16
    ensures |b| == 16
  {
    BigEndian(BE(iv) + j, 16)
  }

  lemma FirstCounter(iv: seq<byte>)
    requires |iv| == 16
    ensures CounterBlock(iv, 0) == iv
  {
    BigEndianBE(iv);
    hide BigEndian, BE;
  }

  const TWO128: nat := 0x1_0000_0000_0000_0000_0000_0000_0000_0000

  /** The counter does not repeat among 2^128 consecutive blocks. */
  lemma CountersDistinct(iv: seq<byte>, j: nat, k: nat)
    requires |iv| == 16 && j < k < j + TWO128
    ensures CounterBlock(iv, j) != CounterBlock(iv, k)
  {
    hide BigEndian, BE, Pow2, Cong;
    if CounterBlock(iv, j) == CounterBlock(iv, k) {
      SameBigEndian(BE(iv) + k, BE(iv) + j, 16);
      Pow2At128(8 * 16);
      NotCong(BE(iv) + k, BE(iv) + j, TWO128);
      assert false;
    }
  }

  lemma Pow2At128(n: nat)
    requires n == 128
    ensures Pow2(n) == TWO128
  {
    Pow2Values();
  }

  lemma NotCong(x: int, y: int, m: int)
    requires 0 < x - y < m
    ensures !Cong(x, y, m)
  {
    DivModUnique(x - y, m, 0, x - y);
  }

  /** One step of the carry: the last byte, or zero and a carry into the rest. */
  function Incremented(s: seq<byte>): (t: seq<byte>)
    ensures |t| == |s|
  {
    if s == [] then []
    else if s[|s| - 1] == 0xff then Incremented(s[..|s| - 1]) + [0]
    else s[..|s| - 1] + [s[|s| - 1] + 1]
  }

  /** The byte-wise carry is +1 on the number. */
  lemma {:induction false} IncrementMeaning(v: nat, n: nat)
    ensures Incremented(BigEndian(v, n)) == BigEndian(v + 1, n)
  {
    if n > 0 {
      var t := BigEndian(v / 0x100, n - 1);
      assert BigEndian(v, n) == t + [v % 0x100];
      assert (t + [v % 0x100])[..n - 1] == t;
      if v % 0x100 == 0xff {
        IncrementMeaning(v / 0x100, n - 1);
        assert (v + 1) / 0x100 == v / 0x100 + 1 && (v + 1) % 0x100 == 0;
      } else {
        assert (v + 1) / 0x100 == v / 0x100 && (v + 1) % 0x100 == v % 0x100 + 1;
      }
    }
  }

  /** The carry runs through the trailing 0xff bytes and stops at byte i, if there is one. */
  lemma {:induction false} CarryStops(x: seq<byte>, i: int, t: seq<byte>)
    requires -1 <= i < |x| == |t|
    requires forall k :: i < k < |x| ==> x[k] == 0xff && t[k] == 0
    requires forall k :: 0 <= k < i ==> t[k] == x[k]
    requires i >= 0 ==> x[i] != 0xff && t[i] == x[i] + 1
    ensures Incremented(x) == t
  {
    if x == [] {
    } else if i == |x| - 1 {
      assert t == x[..i] + [x[i] + 1];
    } else {
      CarryStops(x[..|x| - 1], i, t[..|x| - 1]);
      assert t == t[..|x| - 1] + [0];
    }
  }

  /** Counts up from the last byte, and stops at the first byte that does not wrap to zero. */
  method CtrIncrement(ctr: array<byte>)
    requires ctr.Length == 16
    modifies ctr
    ensures ctr[..] == Incremented(old(ctr[..]))
  {
    hide Incremented;
    ghost var x := ctr[..];
    var i := 15;
    while i >= 0
      invariant -1 <= i <= 15
      invariant forall k :: i < k < 16 ==> x[k] == 0xff && ctr[k] == 0
      invariant forall k :: 0 <= k <= i ==> ctr[k] == x[k]
    {
      ctr[i] := (ctr[i] as nat + 1) % 0x100;
      if ctr[i] != 0 { break; }
      i := i - 1;
    }
    CarryStops(x, i, ctr[..]);
  }

  // ---------- the keystream ----------

  function Keystream(k: Schedule, iv: seq<byte>, p: nat): byte
    requires k.Valid() && |iv| == 16
  {
    Encrypted(k, CounterBlock(iv, p / 16))[p % 16]
  }

  /** No two of 2^128 consecutive keystream blocks are equal. */
  lemma KeystreamBlocksDistinct(k: Schedule, iv: seq<byte>, i: nat, j: nat)
    requires k.Valid() && |iv| == 16 && i < j < i + TWO128
    ensures Encrypted(k, CounterBlock(iv, i)) != Encrypted(k, CounterBlock(iv, j))
  {
    hide Encrypted, CounterBlock;
    CountersDistinct(iv, i, j);
    if Encrypted(k, CounterBlock(iv, i)) == Encrypted(k, CounterBlock(iv, j)) {
      EncryptedInjective(k, CounterBlock(iv, i), CounterBlock(iv, j));
      assert false;
    }
  }

  /** data under the keystream that starts at byte p. */
  function Crypted(k: Schedule, iv: seq<byte>, p: nat, data: seq<byte>): (c: seq<byte>)
    requires k.Valid() && |iv| == 16
    ensures |c| == |data|
  {
    hide *;
    seq(|data|, i requires 0 <= i < |data| => XorByte(data[i], Keystream(k, iv, p + i)))
  }

  lemma CounterValue(iv: seq<byte>, j: nat)
    requires |iv| == 16
    ensures BE(CounterBlock(iv, j)) == (BE(iv) + j) % TWO128
  {
    hide BE, BigEndian, Pow2;
    Pow2At128(8 * 16);
    LowNumber(BE(iv) + j, 16, TWO128);
  }

  lemma LowNumber(v: nat, n: nat, w: nat)
    requires Pow2(8 * n) == w
    ensures w > 0 && BE(BigEndian(v, n)) == v % w
  {
    hide BE, BigEndian, Pow2;
    DivMod(v, w);
    LowBytes(v, v % w, v / w, n);
    ReadBack(v % w, n);
  }

  /** Only the low bytes are written. */
  lemma {:induction false} LowBytes(v: nat, r: nat, q: nat, n: nat)
    requires v == q * Pow2(8 * n) + r
    ensures BigEndian(v, n) == BigEndian(r, n)
  {
    if n > 0 {
      Pow2Byte(n - 1);
      hide Pow2;
      LowByte(v, r, q, Pow2(8 * (n - 1)));
      LowBytes(v / 0x100, r / 0x100, q, n - 1);
    }
  }

  lemma LowByte(v: nat, r: nat, q: nat, w: nat)
    requires v == q * (0x100 * w) + r
    ensures v / 0x100 == q * w + r / 0x100 && v % 0x100 == r % 0x100
  {
    MulAssoc(q, 0x100, w);
    MulAssoc(0x100, q, w);
    MulLe0(q, w);
    DivMod(r, 0x100);
    DivModUnique(v, 0x100, q * w + r / 0x100, r % 0x100);
  }

  lemma MulLe0(q: nat, w: nat)
    ensures q * w >= 0
  {
  }

  /** Counter mode byte by byte: byte i of the data under byte (p + i) mod 16 of an encrypted counter,
      which is the initial one plus (p + i) / 16, modulo 2^128. */
  lemma CryptedMeaning(k: Schedule, iv: seq<byte>, p: nat, data: seq<byte>, i: nat) returns (counter: seq<byte>)
    requires k.Valid() && |iv| == 16 && i < |data|
    ensures |counter| == 16 && BE(counter) == (BE(iv) + (p + i) / 16) % TWO128
    ensures Crypted(k, iv, p, data)[i] == XorByte(data[i], Encrypted(k, counter)[(p + i) % 16])
  {
    hide Encrypted, CounterBlock, BE, XorByte;
    counter := CounterBlock(iv, (p + i) / 16);
    CounterValue(iv, (p + i) / 16);
  }

  /** Cutting the data anywhere does not change the result. */
  lemma CryptedAppend(k: Schedule, iv: seq<byte>, p: nat, a: seq<byte>, b: seq<byte>)
    requires k.Valid() && |iv| == 16
    ensures Crypted(k, iv, p, a + b) == Crypted(k, iv, p, a) + Crypted(k, iv, p + |a|, b)
  {
    hide Keystream, XorByte;
    var l, r := Crypted(k, iv, p, a + b), Crypted(k, iv, p, a) + Crypted(k, iv, p + |a|, b);
    forall i | 0 <= i < |a + b| ensures l[i] == r[i] {
      if i >= |a| { assert p + i == p + |a| + (i - |a|); }
    }
  }

  /** Decryption is encryption. */
  lemma CryptedTwice(k: Schedule, iv: seq<byte>, p: nat, data: seq<byte>)
    requires k.Valid() && |iv| == 16
    ensures Crypted(k, iv, p, Crypted(k, iv, p, data)) == data
  {
    hide Keystream, XorByte;
    forall i | 0 <= i < |data| ensures Crypted(k, iv, p, Crypted(k, iv, p, data))[i] == data[i] {
      XorByteTwice(data[i], Keystream(k, iv, p + i));
    }
  }

  /** The outputs of a run of calls, one per piece, on a stream at byte p. */
  function CryptedPieces(k: Schedule, iv: seq<byte>, p: nat, pieces: seq<seq<byte>>): seq<byte>
    requires k.Valid() && |iv| == 16
    decreases |pieces|
  {
    if pieces == [] then []
    else Crypted(k, iv, p, pieces[0]) + CryptedPieces(k, iv, p + |pieces[0]|, pieces[1..])
  }

  /** Any sequence of calls produces what one call on the whole would. */
  lemma {:induction false} ChunkIndependence(k: Schedule, iv: seq<byte>, p: nat, pieces: seq<seq<byte>>)
    requires k.Valid() && |iv| == 16
    ensures CryptedPieces(k, iv, p, pieces) == Crypted(k, iv, p, Joined(pieces))
    decreases |pieces|
  {
    hide Crypted;
    if pieces != [] {
      ChunkIndependence(k, iv, p + |pieces[0]|, pieces[1..]);
      CryptedAppend(k, iv, p, pieces[0], Joined(pieces[1..]));
    } else {
      assert Crypted(k, iv, p, []) == [];
    }
  }

  /** The receiver may cut the ciphertext differently from the sender. */
  lemma Recut(k: Schedule, iv: seq<byte>, p: nat, sent: seq<seq<byte>>, received: seq<seq<byte>>)
    requires k.Valid() && |iv| == 16
    requires Joined(received) == CryptedPieces(k, iv, p, sent)
    ensures CryptedPieces(k, iv, p, received) == Joined(sent)
  {
    ChunkIndependence(k, iv, p, sent);
    ChunkIndependence(k, iv, p, received);
    CryptedTwice(k, iv, p, Joined(sent));
    hide Crypted, CryptedPieces, Joined;
  }

  // ---------- the streaming context ----------

  /** An aes_ctr_ctx_t.  iv and pos are ghosts: where the stream began and how many bytes of it
      are used up. */
  class AesCtr {
    const aes: AesCtx
    const nonceCounter: array<byte>
    const stream: array<byte>
    var streamOffset: nat
    ghost var iv: seq<byte>
    ghost var pos: nat

    constructor ()
      ensures Shape() && fresh(Repr())
    {
      aes := new AesCtx();
      nonceCounter, stream := new byte[16](_ => 0), new byte[16](_ => 0);
      streamOffset, iv, pos := 0, [], 0;
    }

    ghost predicate Shape() {
      nonceCounter.Length == 16 && stream.Length == 16 && nonceCounter != stream && aes.rk.Length == 60
    }

    ghost function Repr(): set<object> { {this, aes, aes.rk, nonceCounter, stream} }

    ghost predicate Valid()
      reads this, aes, nonceCounter, stream, aes.rk
    {
      && Shape() && aes.Valid() && |iv| == 16
      && streamOffset == pos % 16
      && nonceCounter[..] == CounterBlock(iv, (pos + 15) / 16)
      && (pos % 16 != 0 ==> stream[..] == Encrypted(aes.Key(), CounterBlock(iv, pos / 16)))
    }

    /** aes_ctr_init: clears the context, then fails exactly for an unsupported key size. */
    method Init(key: seq<byte>, keyBits: int, start: seq<byte>) returns (ok: bool)
      requires Shape() && |start| == 16 && (keyBits in {128, 192, 256} ==> 8 * |key| == keyBits)
      modifies this, aes, aes.rk, nonceCounter, stream
      ensures ok <==> keyBits in {128, 192, 256}
      ensures ok ==> Valid() && iv == start && pos == 0 && aes.Key() == ScheduleOf(key, keyBits / 32)
      ensures !ok ==> aes.Cleared() && nonceCounter[..] == ZEROS && stream[..] == ZEROS && streamOffset == 0
    {
      hide CounterBlock, Encrypted, ScheduleOf;
      aes.Clear();
      FillZero(nonceCounter);
      FillZero(stream);
      streamOffset := 0;
      ok := aes.SetEncryptKey(key, keyBits);
      if !ok { return; }
      CopyBlock(nonceCounter, start);
      iv, pos := start, 0;
      FirstCounter(start);
    }

    /** A new keystream block when the last one is used up. */
    method Refill()
      requires Valid()
      modifies nonceCounter, stream
      ensures Shape() && aes.Key() == old(aes.Key()) && streamOffset == pos % 16
      ensures stream[..] == Encrypted(aes.Key(), CounterBlock(iv, pos / 16))
      ensures nonceCounter[..] == CounterBlock(iv, pos / 16 + 1)
    {
      hide Encrypted, CounterBlock, Incremented;
      BlockIndex(pos);
      if streamOffset == 0 {
        aes.EncryptBlock(nonceCounter, stream);
        CtrIncrement(nonceCounter);
        NextCounter(iv, pos / 16);
      }
    }

    /** One pass of the aes_ctr_crypt loop: as much as the current block still covers. */
    method CryptSome(input: array<byte>, out: array<byte>, i: nat, to: nat) returns (take: nat)
      requires Valid() && i < to <= input.Length && input.Length == out.Length
      requires {input as object, out} !! Repr()
      modifies this`streamOffset, this`pos, nonceCounter, stream, out
      ensures Valid() && aes.Key() == old(aes.Key()) && 0 < take <= to - i && pos == old(pos) + take
      ensures out[..] == old(out[..i]) + Crypted(aes.Key(), iv, old(pos), old(input[i..i + take])) + old(out[i + take..])
    {
      hide Encrypted, CounterBlock, Crypted, Keystream;
      Refill();
      take := 16 - streamOffset;
      if take > to - i { take := to - i; }
      ghost var data := input[i..i + take];
      XorRun(input, out, i, take);
      OneBlockCrypted(aes.Key(), iv, pos, data, stream[..]);
      Advance(pos, take);
      streamOffset := (streamOffset + take) % 16;
      pos := pos + take;
    }

    /** Exclusive-ors a stretch of the input with what is left of the keystream block. */
    method XorRun(input: array<byte>, out: array<byte>, i: nat, take: nat)
      requires stream.Length == 16 && streamOffset + take <= 16 && i + take <= input.Length == out.Length
      requires out != stream && input != stream
      modifies out
      ensures out[..] == old(out[..i]) + Xored(old(input[i..i + take]), stream[..], streamOffset) + old(out[i + take..])
    {
      hide XorByte;
      ghost var x, o := input[..], out[..];
      var k := 0;
      while k < take
        invariant 0 <= k <= take
        invariant forall j :: i <= j < i + k ==> out[j] == XorByte(x[j], stream[streamOffset + (j - i)])
        invariant forall j :: 0 <= j < i || i + k <= j < out.Length ==> out[j] == o[j]
        invariant forall j :: i + k <= j < out.Length ==> input[j] == x[j]
      {
        out[i + k] := XorByte(input[i + k], stream[streamOffset + k]);
        k := k + 1;
      }
    }

    /** aes_ctr_crypt on input[from..to]; out may be the same array. */
    method Crypt(input: array<byte>, out: array<byte>, from: nat, to: nat)
      requires Valid() && from <= to <= input.Length && input.Length == out.Length
      requires {input as object, out} !! Repr()
      modifies this`streamOffset, this`pos, nonceCounter, stream, out
      ensures Valid() && aes.Key() == old(aes.Key()) && pos == old(pos) + (to - from)
      ensures out[..] == old(out[..from]) + Crypted(aes.Key(), iv, old(pos), old(input[from..to])) + old(out[to..])
    {
      hide Encrypted, CounterBlock, Crypted, Done;
      ghost var x, o, k, p := input[..], out[..], aes.Key(), pos;
      DoneEnds(k, iv, p, o, x, from, to);
      var i := from;
      while i < to
        invariant from <= i <= to && Valid() && aes.Key() == k && pos == p + (i - from)
        invariant Done(k, iv, p, o, x, from, i, out[..])
        invariant input == out || input[..] == x
      {
        ghost var was, data := out[..], input[..];
        var take := CryptSome(input, out, i, to);
        DoneNext(k, iv, p, o, x, from, i, take, was, data, out[..], input == out);
        i := i + take;
      }
    }
  }

  /** The stretch from..i of o has been replaced by the encryption of x. */
  ghost predicate Done(k: Schedule, iv: seq<byte>, p: nat, o: seq<byte>, x: seq<byte>, from: nat, i: nat, now: seq<byte>)
    requires k.Valid() && |iv| == 16 && from <= i <= |o| == |x|
  {
    now == o[..from] + Crypted(k, iv, p, x[from..i]) + o[i..]
  }

  lemma DoneEnds(k: Schedule, iv: seq<byte>, p: nat, o: seq<byte>, x: seq<byte>, from: nat, to: nat)
    requires k.Valid() && |iv| == 16 && from <= to <= |o| == |x|
    ensures Done(k, iv, p, o, x, from, from, o)
    ensures forall now :: Done(k, iv, p, o, x, from, to, now) ==> now == o[..from] + Crypted(k, iv, p, x[from..to]) + o[to..]
  {
    assert Crypted(k, iv, p, x[from..from]) == [];
    hide Crypted;
  }

  lemma DoneNext(k: Schedule, iv: seq<byte>, p: nat, o: seq<byte>, x: seq<byte>, from: nat, i: nat, take: nat,
                 was: seq<byte>, data: seq<byte>, now: seq<byte>, same: bool)
    requires k.Valid() && |iv| == 16 && from <= i && i + take <= |o| == |x| == |data| == |was|
    requires Done(k, iv, p, o, x, from, i, was)
    requires if same then o == x && data == was else data == x
    requires now == was[..i] + Crypted(k, iv, p + (i - from), data[i..i + take]) + was[i + take..]
    ensures Done(k, iv, p, o, x, from, i + take, now)
  {
    hide Crypted;
    var done := Crypted(k, iv, p, x[from..i]);
    Untouched(o, x, was, data, done, from, i, same);
    assert data[i..i + take] == x[i..i + take] by { assert data[i..][..take] == x[i..][..take]; }
    CryptedAppend(k, iv, p, x[from..i], x[i..i + take]);
    assert x[from..i] + x[i..i + take] == x[from..i + take];
    Splice(o, was, now, done, Crypted(k, iv, p + (i - from), x[i..i + take]), from, i);
  }

  /** The input that is still to be read is as it was, even when the output overwrites it. */
  lemma Untouched(o: seq<byte>, x: seq<byte>, was: seq<byte>, data: seq<byte>, done: seq<byte>,
                  from: nat, i: nat, same: bool)
    requires from <= i <= |o| == |x| && |done| == i - from && was == o[..from] + done + o[i..]
    requires if same then o == x && data == was else data == x
    ensures data[i..] == x[i..]
  {
  }

  /** Extending the replaced stretch of a byte string. */
  lemma Splice(o: seq<byte>, was: seq<byte>, now: seq<byte>, done: seq<byte>, part: seq<byte>, from: nat, i: nat)
    requires from <= i && i + |part| <= |o| && |done| == i - from
    requires was == o[..from] + done + o[i..]
    requires now == was[..i] + part + was[i + |part|..]
    ensures now == o[..from] + (done + part) + o[i + |part|..]
  {
  }

  function Xored(a: seq<byte>, s: seq<byte>, off: nat): (c: seq<byte>)
    requires off + |a| <= |s|
    ensures |c| == |a|
  {
    seq(|a|, j requires 0 <= j < |a| => XorByte(a[j], s[off + j]))
  }

  /** Within one keystream block. */
  lemma OneBlockCrypted(k: Schedule, iv: seq<byte>, p: nat, data: seq<byte>, s: seq<byte>)
    requires k.Valid() && |iv| == 16 && p % 16 + |data| <= 16
    requires s == Encrypted(k, CounterBlock(iv, p / 16))
    ensures Xored(data, s, p % 16) == Crypted(k, iv, p, data)
  {
    hide Encrypted, CounterBlock, XorByte;
    forall i | 0 <= i < |data| ensures Xored(data, s, p % 16)[i] == Crypted(k, iv, p, data)[i] {
      WithinBlock(p, i);
    }
  }

  lemma WithinBlock(p: nat, i: nat)
    requires p % 16 + i < 16
    ensures (p + i) / 16 == p / 16 && (p + i) % 16 == p % 16 + i
  {
  }

  lemma BlockIndex(p: nat)
    ensures (p + 15) / 16 == if p % 16 == 0 then p / 16 else p / 16 + 1
  {
  }

  /** After consuming part or all of a block. */
  lemma Advance(p: nat, take: nat)
    requires 0 < take && p % 16 + take <= 16
    ensures (p % 16 + take) % 16 == (p + take) % 16
    ensures (p + take + 15) / 16 == p / 16 + 1
    ensures (p + take) % 16 != 0 ==> (p + take) / 16 == p / 16
  {
  }

  lemma NextCounter(iv: seq<byte>, j: nat)
    requires |iv| == 16
    ensures Incremented(CounterBlock(iv, j)) == CounterBlock(iv, j + 1)
  {
    hide Incremented, BigEndian, BE;
    IncrementMeaning(BE(iv) + j, 16);
    assert BE(iv) + j + 1 == BE(iv) + (j + 1);
  }

  const ZEROS: seq<byte> := [0, 0, 0, 0, 0, 0, 0, 0, 0, 0, 0, 0, 0, 0, 0, 0]

  method FillZero(a: array<byte>)
    requires a.Length == 16
    modifies a
    ensures a[..] == ZEROS
  {
    var i := 0;
    while i < 16
      invariant 0 <= i <= 16 && forall k :: 0 <= k < i ==> a[k] == 0
    {
      a[i] := 0;
      i := i + 1;
    }
  }

  method CopyBlock(a: array<byte>, b: seq<byte>)
    requires a.Length == 16 && |b| == 16
    modifies a
    ensures a[..] == b
  {
    var i := 0;
    while i < 16
      invariant 0 <= i <= 16 && a[..i] == b[..i]
    {
      a[i] := b[i];
      i := i + 1;
    }
  }
}
