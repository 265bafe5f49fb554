/** src/buffer.c: the growable read/write buffer and its integer, string and mpint codecs
    (RFC 4251, section 5). */
module Buffer {
  import opened Arithmetic
  import opened Options
  import opened Bytes
  import opened StreamHash
  import opened Ctr
  import Sha256

  /** size_t arithmetic wraps here. */
  const SIZE: nat := 0x1_0000_0000_0000_0000

  /** The doubling of a capacity is sure to get up to here. */
  const SIZE_LIMIT: nat := 0x8000_0000_0000_0000

  const BUF_MIN_CAP: nat := 64

  // ---------- growing ----------

  function Twice(x: nat): nat { x * 2 % SIZE }

  /** The capacity the growth loop of buf_reserve starts from, and after k doublings of that. */
  function Doubled(cap: nat, k: nat): nat {
    if k > 0 then Twice(Doubled(cap, k - 1)) else if cap != 0 then Twice(cap) else BUF_MIN_CAP
  }

  /** The growth loop ends: some doubling reaches the size needed. */
  ghost predicate GrowthEnds(cap: nat, need: nat) { exists k: nat :: need <= Doubled(cap, k) }

  /** c is the first capacity of the growth loop that reaches the size needed. */
  ghost predicate FirstReaching(cap: nat, need: nat, c: nat) {
    exists k: nat :: Doubled(cap, k) == c >= need && forall i: nat :: i < k ==> Doubled(cap, i) < need
  }

  lemma TwiceIs(x: nat)
    requires x < SIZE
    ensures Twice(x) == if x < SIZE_LIMIT then 2 * x else 2 * x - SIZE
  {
    DivModUnique(x * 2, SIZE, if x < SIZE_LIMIT then 0 else 1, if x < SIZE_LIMIT then 2 * x else 2 * x - SIZE);
  }

  lemma TwiceClears(x: nat, m: nat, n: nat)
    requires 0 < m && 0 < n && 2 * m * n == SIZE && x % m == 0
    ensures Twice(x) % (2 * m) == 0
  {
    DivMod(x, m);
    MulAssoc(x / m, m, 2);
    DivModUnique(2 * x, 2 * m, x / m, 0);
    ModMod(2 * x, 2 * m, n);
  }

  /** Each doubling clears one more low bit, so after 63 of them nothing is left. */
  lemma {:induction false} DoubledClears(cap: nat, k: nat)
    requires k < 64
    ensures Doubled(cap, k) % Pow2(k + 1) == 0
  {
    Pow2Add(k + 1, 63 - k);
    Pow2Values();
    var x := if k > 0 then Doubled(cap, k - 1) else if cap != 0 then cap else BUF_MIN_CAP / 2;
    assert Doubled(cap, k) == Twice(x) by { TwiceIs(BUF_MIN_CAP / 2); }
    assert x % Pow2(k) == 0 by {
      if k > 0 { DoubledClears(cap, k - 1); } else { DivModUnique(x, 1, x, 0); }
    }
    assert Pow2(k + 1) == 2 * Pow2(k);
    hide Pow2, Doubled, Twice;
    TwiceClears(x, Pow2(k), Pow2(63 - k));
  }

  lemma DoubledEnds(cap: nat)
    ensures Doubled(cap, 63) == 0
  {
    DoubledClears(cap, 63);
    Pow2Values();
    hide Pow2;
    DoubledBelow(cap, 63);
    DivModUnique(Doubled(cap, 63), SIZE, 0, Doubled(cap, 63));
  }

  lemma DoubledBelow(cap: nat, k: nat)
    ensures Doubled(cap, k) < SIZE
  {
    DivMod(if k > 0 then Doubled(cap, k - 1) * 2 else cap * 2, SIZE);
  }

  lemma {:induction false} ZeroStays(cap: nat, j: nat, k: nat)
    requires j <= k && Doubled(cap, j) == 0
    ensures Doubled(cap, k) == 0
  {
    TwiceIs(0);
    hide Twice;
    if j < k { ZeroStays(cap, j, k - 1); }
  }

  /** No capacity below 2^63 - 1 ever grows to the last three sizes: doubled once it is even and
      too small, doubled twice it is a multiple of four. */
  lemma {:induction false} DoubledMisses(cap: nat, k: nat)
    requires cap < SIZE_LIMIT - 1
    ensures Doubled(cap, k) % 2 == 0 && Doubled(cap, k) <= SIZE - 4
  {
    hide Twice;
    if k > 0 {
      DoubledMisses(cap, k - 1);
      TwiceIs(Doubled(cap, k - 1));
    } else if cap != 0 {
      TwiceIs(cap);
    }
  }

  lemma GrowthNeverEnds(cap: nat, need: nat)
    requires cap < SIZE_LIMIT - 1 && need >= SIZE - 3
    ensures !GrowthEnds(cap, need)
  {
    if GrowthEnds(cap, need) {
      var k: nat :| need <= Doubled(cap, k);
      DoubledMisses(cap, k);
      assert false;
    }
  }

  /** Doubles until the capacity is large enough, or returns 0 when that never happens: once the product has
      wrapped to zero it stays there. */
  method NewCapacity(cap: nat, need: nat) returns (c: nat)
    requires cap < need < SIZE
    ensures c == 0 <==> !GrowthEnds(cap, need)
    ensures c != 0 ==> need <= c < SIZE && FirstReaching(cap, need, c)
    ensures c == 0 ==> need > SIZE_LIMIT
  {
    hide Twice;
    c := if cap != 0 then Twice(cap) else BUF_MIN_CAP;
    TwiceIs(cap);
    DoubledEnds(cap);
    ghost var j := 0;
    while c < need
      invariant j < 64 && c == Doubled(cap, j) && (forall i: nat :: i < j ==> Doubled(cap, i) < need)
      invariant c < SIZE && (need <= SIZE_LIMIT ==> c > 0)
      decreases 64 - j
    {
      if c == 0 {
        forall k: nat ensures Doubled(cap, k) < need {
          if j <= k { ZeroStays(cap, j, k); }
        }
        return;
      }
      TwiceIs(c);
      c := Twice(c);
      j := j + 1;
      DoubledBelow(cap, j);
    }
    assert need <= Doubled(cap, j);
  }

  // ---------- the buffer ----------

  /** An ssh_buf_t; data.Length is the capacity. */
  class SshBuf {
    var data: array<byte>
    var len: nat
    var rpos: nat

    constructor (initialCap: nat)
      requires initialCap < SIZE
      ensures Valid() && fresh(data) && Contents() == [] && rpos == 0
    {
      data := new byte[if initialCap < BUF_MIN_CAP then BUF_MIN_CAP else initialCap];
      len, rpos := 0, 0;
    }

    ghost predicate Valid()
      reads this
    {
      rpos <= len <= data.Length < SIZE
    }

    ghost function Contents(): seq<byte>
      requires Valid()
      reads this, data
    {
      data[..len]
    }

    /** What the readers have not consumed. */
    ghost function Unread(): seq<byte>
      requires Valid()
      reads this, data
    {
      data[rpos..len]
    }

    /** buf_reset */
    method Reset()
      requires Valid()
      modifies this`len, this`rpos
      ensures Valid() && Contents() == [] && rpos == 0
    {
      len, rpos := 0, 0;
    }

    /** Doubles the capacity until `additional` more bytes fit, for every size_t.  Not done means
        that the loop of the source never ends. */
    method Reserve(additional: nat) returns (done: bool)
      requires Valid() && additional < SIZE
      modifies this`data
      ensures Valid() && Contents() == old(Contents())
      ensures data == old(data) || fresh(data)
      ensures var cap, need := old(data.Length), (len + additional) % SIZE;
        && (done <==> need <= cap || GrowthEnds(cap, need))
        && (if !done || need <= cap then data == old(data) else FirstReaching(cap, need, data.Length))
        && (done ==> need <= data.Length)
      ensures len + additional < SIZE_LIMIT ==> done && len + additional <= data.Length
    {
      hide GrowthEnds, FirstReaching;
      var need := (len + additional) % SIZE;
      if need <= data.Length { return true; }
      var newCap := NewCapacity(data.Length, need);
      if newCap == 0 { return false; }
      var newData := new byte[newCap];
      CopyIn(newData, 0, data[..len]);
      data := newData;
      done := true;
    }

    /** memcpy to the end. */
    method PutRaw(src: seq<byte>)
      requires Valid() && len + |src| < SIZE_LIMIT
      modifies this`data, this`len, data
      ensures Valid() && Contents() == old(Contents()) + src
      ensures data == old(data) || fresh(data)
    {
      hide GrowthEnds, FirstReaching;
      if |src| == 0 { return; }
      var done := Reserve(|src|);
      CopyIn(data, len, src);
      len := len + |src|;
    }

    method PutU8(v: byte)
      requires Valid() && len + 1 < SIZE_LIMIT
      modifies this`data, this`len, data
      ensures Valid() && Contents() == old(Contents()) + [v]
      ensures data == old(data) || fresh(data)
    {
      hide GrowthEnds, FirstReaching;
      var done := Reserve(1);
      ghost var was := data[..len];
      data[len] := v;
      len := len + 1;
      assert data[..len] == was + [v];
    }

    method PutU32(v: u32)
      requires Valid() && len + 4 < SIZE_LIMIT
      modifies this`data, this`len, data
      ensures Valid() && Contents() == old(Contents()) + BigEndian(v, 4)
      ensures data == old(data) || fresh(data)
    {
      hide BigEndian, Shr, GrowthEnds, FirstReaching;
      Sha256.WordIsBigEndian(v);
      var done := Reserve(4);
      StoreFour(Shr(v, 24) % 0x100, Shr(v, 16) % 0x100, Shr(v, 8) % 0x100, Shr(v, 0) % 0x100);
    }

    /** Four bytes at the end, where there is room for them. */
    method StoreFour(b0: byte, b1: byte, b2: byte, b3: byte)
      requires Valid() && len + 4 <= data.Length
      modifies this`len, data
      ensures Valid() && Contents() == old(Contents()) + [b0, b1, b2, b3]
    {
      ghost var was := data[..len];
      data[len] := b0;
      data[len + 1] := b1;
      data[len + 2] := b2;
      data[len + 3] := b3;
      len := len + 4;
      assert data[..len] == was + [b0, b1, b2, b3];
    }

    /** The length, truncated to 32 bits as the source casts it, and the bytes. */
    method PutString(s: seq<byte>)
      requires Valid() && len + 4 + |s| < SIZE_LIMIT
      modifies this`data, this`len, data
      ensures Valid() && Contents() == old(Contents()) + StringBytes(s)
      ensures data == old(data) || fresh(data)
    {
      hide BigEndian;
      ghost var was := Contents();
      PutU32(|s| % 0x1_0000_0000);
      if |s| > 0 {
        PutRaw(s);
      }
      assert was + BigEndian(|s| % 0x1_0000_0000, 4) + s == was + StringBytes(s);
    }

    /** Writes a big-endian number of any length as an mpint: leading zeros dropped, a zero byte
        put in front when the top bit is set. */
    method PutMpint(bignum: seq<byte>)
      requires Valid() && len + 5 + |bignum| < SIZE_LIMIT
      modifies this`data, this`len, data
      ensures Valid() && Contents() == old(Contents()) + MpintBytes(bignum)
      ensures data == old(data) || fresh(data)
    {
      hide BigEndian, Stripped;
      ghost var was := Contents();
      var offset := LeadingZeros(bignum);
      if offset == |bignum| {
        PutU32(0);
        assert BigEndian(0, 4) == MpintBytes(bignum);
        return;
      }
      var needPad := bignum[offset] >= 0x80;
      PutU32((|bignum| - offset + if needPad then 1 else 0) % 0x1_0000_0000);
      if needPad {
        PutU8(0);
      }
      PutRaw(bignum[offset..]);
      ghost var body := (if needPad then [0] else []) + bignum[offset..];
      assert Contents() == was + (BigEndian(|body| % 0x1_0000_0000, 4) + body);
      assert body == MpintBody(bignum);
    }

    // ---------- readers ----------

    method GetU8() returns (v: Option<byte>)
      requires Valid()
      modifies this`rpos
      ensures Valid() && Contents() == old(Contents())
      ensures v.None? <==> |old(Unread())| < 1
      ensures v.None? ==> rpos == old(rpos)
      ensures v.Some? ==> old(Unread()) == [v.value] + Unread()
    {
      if len - rpos < 1 { return None; }
      v := Some(data[rpos]);
      rpos := rpos + 1;
    }

    /** buf_get_raw */
    method GetRaw(n: nat) returns (v: Option<seq<byte>>)
      requires Valid()
      modifies this`rpos
      ensures Valid() && Contents() == old(Contents())
      ensures v.None? <==> |old(Unread())| < n
      ensures v.None? ==> rpos == old(rpos)
      ensures v.Some? ==> |v.value| == n && old(Unread()) == v.value + Unread()
    {
      if len - rpos < n { return None; }
      v := Some(data[rpos..rpos + n]);
      rpos := rpos + n;
    }

    method GetU32() returns (v: Option<nat>)
      requires Valid()
      modifies this`rpos
      ensures Valid() && Contents() == old(Contents())
      ensures v.None? <==> |old(Unread())| < 4
      ensures v.None? ==> rpos == old(rpos)
      ensures v.Some? ==> v.value == BE(old(Unread())[..4]) < 0x1_0000_0000 && Unread() == old(Unread())[4..]
    {
      if len - rpos < 4 { return None; }
      var w := data[rpos..rpos + 4];
      assert w == Unread()[..4] && data[rpos + 4..len] == Unread()[4..];
      GetBe32Meaning(w);
      hide BE;
      v := Some(GetBe32(w));
      rpos := rpos + 4;
    }

    /** A failing read still consumes the length field when only the bytes are missing. */
    method GetString() returns (s: Option<seq<byte>>)
      requires Valid()
      modifies this`rpos
      ensures Valid() && Contents() == old(Contents())
      ensures (s, Unread()) == ReadString(old(Unread()))
    {
      hide BE;
      ghost var u := Unread();
      var n := GetU32();
      if n.None? { return None; }
      if len - rpos < n.value { return None; }
      s := Some(data[rpos..rpos + n.value]);
      SliceParts(data[..], rpos, len, n.value);
      SuffixParts(u, 4, n.value);
      rpos := rpos + n.value;
    }
  }

  lemma SliceParts(a: seq<byte>, from: nat, to: nat, n: nat)
    requires from + n <= to <= |a|
    ensures a[from..from + n] == a[from..to][..n] && a[from + n..to] == a[from..to][n..]
  {
  }

  lemma SuffixParts(a: seq<byte>, from: nat, n: nat)
    requires from + n <= |a|
    ensures a[from..][..n] == a[from..from + n] && a[from..][n..] == a[from + n..]
  {
  }

  /** Skips the leading zero bytes. */
  method LeadingZeros(bignum: seq<byte>) returns (offset: nat)
    ensures offset <= |bignum| && Stripped(bignum) == bignum[offset..]
    ensures offset < |bignum| ==> bignum[offset] != 0
  {
    offset := 0;
    while offset < |bignum| && bignum[offset] == 0
      invariant 0 <= offset <= |bignum| && Stripped(bignum) == Stripped(bignum[offset..])
    {
      offset := offset + 1;
    }
  }

  // ---------- what the codecs write ----------

  function StringBytes(s: seq<byte>): seq<byte> { BigEndian(|s| % 0x1_0000_0000, 4) + s }

  /** The string at the front of s and what follows it; a short string leaves the length read. */
  function ReadString(s: seq<byte>): (Option<seq<byte>>, seq<byte>) {
    if |s| < 4 then (None, s)
    else
      var n := BE(s[..4]);
      if |s| - 4 < n then (None, s[4..]) else (Some(s[4..4 + n]), s[4 + n..])
  }

  function GetBe32(p: seq<byte>): nat
    requires |p| == 4
  {
    Or(Or(Or(p[3], p[2] as nat * 0x100, 0x100), p[1] as nat * 0x1_0000, 0x1_0000), p[0] as nat * 0x100_0000, 0x100_0000)
  }

  lemma GetBe32Meaning(p: seq<byte>)
    requires |p| == 4
    ensures GetBe32(p) == BE(p) < 0x1_0000_0000
  {
    hide BE;
    BEFour(p[0], p[1], p[2], p[3]);
    assert p == [p[0], p[1], p[2], p[3]];
  }

  lemma BEFour(b0: byte, b1: byte, b2: byte, b3: byte)
    ensures BE([b0, b1, b2, b3]) == b0 as nat * 0x100_0000 + b1 as nat * 0x1_0000 + b2 as nat * 0x100 + b3
  {
    assert BE([]) == 0;
    hide BE;
    BEAppend([], b0);
    BEAppend([b0], b1);
    BEAppend([b0, b1], b2);
    BEAppend([b0, b1, b2], b3);
    assert [] + [b0] == [b0] && [b0] + [b1] == [b0, b1] && [b0, b1] + [b2] == [b0, b1, b2];
    assert [b0, b1, b2] + [b3] == [b0, b1, b2, b3];
  }

  /** A string below 2^32 bytes is read back, whatever follows. */
  lemma StringRoundTrip(s: seq<byte>, more: seq<byte>)
    requires |s| < 0x1_0000_0000
    ensures ReadString(StringBytes(s) + more) == (Some(s), more)
  {
    hide BE, BigEndian;
    FourBytes(|s|, 4);
    var t := StringBytes(s) + more;
    assert t[..4] == BigEndian(|s|, 4) && t[4..4 + |s|] == s && t[4 + |s|..] == more;
  }

  // ---------- mpint ----------

  function Stripped(s: seq<byte>): seq<byte> {
    if s != [] && s[0] == 0 then Stripped(s[1..]) else s
  }

  /** The bytes of the mpint, without its length. */
  function MpintBody(s: seq<byte>): seq<byte> {
    var t := Stripped(s);
    if t != [] && t[0] >= 0x80 then [0] + t else t
  }

  /** The mpint: its length, truncated to 32 bits as the source casts it, and its bytes. */
  function MpintBytes(s: seq<byte>): seq<byte> { StringBytes(MpintBody(s)) }

  lemma BEFront(a: byte, s: seq<byte>)
    ensures BE([a] + s) == a as nat * Pow2(8 * |s|) + BE(s)
  {
    hide BE, Pow2;
    BEConcat([a], s);
    BEAppend([], a);
    EmptyNumber();
    assert [] + [a] == [a];
  }

  lemma {:induction false} BEBound(s: seq<byte>)
    ensures BE(s) < Pow2(8 * |s|)
  {
    if s != [] {
      BEBound(s[..|s| - 1]);
      Pow2Byte(|s| - 1);
      hide Pow2;
    }
  }

  lemma {:induction false} StrippedValue(s: seq<byte>)
    ensures BE(Stripped(s)) == BE(s) && |Stripped(s)| <= |s|
    ensures Stripped(s) != [] ==> Stripped(s)[0] != 0
  {
    if s != [] && s[0] == 0 {
      StrippedValue(s[1..]);
      BEFront(0, s[1..]);
      assert s == [0] + s[1..];
    }
  }

  /** An mpint stands for the number that was given. */
  lemma MpintValue(s: seq<byte>)
    ensures BE(MpintBody(s)) == BE(s)
    ensures MpintBody(s) != [] ==> MpintBody(s)[0] < 0x80
  {
    StrippedValue(s);
    var t := Stripped(s);
    BEFront(0, t);
    hide BE, Stripped;
  }

  /** A number without leading zeros determines its bytes. */
  lemma MinimalUnique(s: seq<byte>, t: seq<byte>)
    requires s != [] ==> s[0] != 0
    requires t != [] ==> t[0] != 0
    requires BE(s) == BE(t)
    ensures s == t
  {
    if |s| < |t| { LongerIsLarger(s, t); }
    if |t| < |s| { LongerIsLarger(t, s); }
    BigEndianBE(s);
    BigEndianBE(t);
    hide BE, BigEndian;
  }

  lemma LongerIsLarger(s: seq<byte>, t: seq<byte>)
    requires |s| < |t| && t[0] != 0
    ensures BE(s) < BE(t)
  {
    BEBound(s);
    assert t == [t[0]] + t[1..];
    BEFront(t[0], t[1..]);
    Pow2Le(8 * |s|, 8 * |t[1..]|);
    hide BE, Pow2;
    MulLe(1, t[0], Pow2(8 * |t[1..]|));
  }

  lemma {:induction false} StrippedShortest(t: seq<byte>)
    ensures forall s :: BE(s) == BE(t) && (s != [] ==> s[0] != 0) ==> |s| <= |t|
  {
    forall s | BE(s) == BE(t) && (s != [] ==> s[0] != 0) ensures |s| <= |t| {
      if |s| > |t| { LongerIsLarger(t, s); }
    }
  }

  /** The mpint of section 5 of RFC 4251: a length field, and the shortest big-endian string with a
      clear sign bit that stands for the number. */
  lemma MpintShortest(s: seq<byte>, t: seq<byte>)
    requires BE(t) == BE(s) && (t != [] ==> t[0] < 0x80)
    ensures var m := MpintBytes(s);
      && |m| >= 4 && BE(m[..4]) == (|m| - 4) % 0x1_0000_0000 && BE(m[4..]) == BE(s)
      && (|m| > 4 ==> m[4] < 0x80) && |m| - 4 <= |t|
  {
    var b := MpintBody(s);
    FourBytes(|b| % 0x1_0000_0000, 4);
    MpintValue(s);
    StrippedValue(s);
    StrippedShortest(t);
    hide BE, Stripped, BigEndian;
    assert MpintBytes(s)[..4] == BigEndian(|b| % 0x1_0000_0000, 4) && MpintBytes(s)[4..] == b;
    var r := Stripped(s);
    if |b| > |r| && |t| == |r| { SameLength(r, t); }
  }

  /** Two byte strings become the same mpint exactly when they stand for the same number. */
  lemma MpintCanonical(s: seq<byte>, t: seq<byte>)
    ensures MpintBytes(s) == MpintBytes(t) <==> BE(s) == BE(t)
  {
    MpintValue(s);
    MpintValue(t);
    StrippedValue(s);
    StrippedValue(t);
    hide BE, Stripped, BigEndian;
    assert MpintBytes(s)[4..] == MpintBody(s) && MpintBytes(t)[4..] == MpintBody(t);
    if BE(s) == BE(t) { MinimalUnique(Stripped(s), Stripped(t)); }
  }
}
