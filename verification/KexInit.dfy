/** src/kex.c: encoding and decoding the KEXINIT message (RFC 4253, section 7.1). */
module KexInit {
  import opened Options
  import opened Bytes
  import opened StreamHash
  import opened Buffer
  import opened Ctr

  const SSH_MSG_KEXINIT: byte := 20

  /** An ssh_kex_init_t: the ten name-lists in wire order, None for a NULL pointer. */
  datatype Init = Init(cookie: seq<byte>, lists: seq<Option<seq<byte>>>, follows: bool) {
    predicate Valid() { |cookie| == 16 && |lists| == 10 }

    /** Every list is a C string whose length fits the 32-bit field. */
    predicate CStrings() {
      forall i :: 0 <= i < |lists| ==> lists[i].Some? ==> 0 !in lists[i].value && |lists[i].value| < 0x1_0000_0000
    }
  }

  /** buf_put_cstring writes a NULL pointer as the empty string. */
  function ListBytes(l: Option<seq<byte>>): seq<byte> { if l.None? then [] else l.value }

  function ListsBytes(lists: seq<Option<seq<byte>>>): seq<byte> {
    if lists == [] then [] else StringBytes(ListBytes(lists[0])) + ListsBytes(lists[1..])
  }

  function Flag(b: bool): byte { if b then 1 else 0 }

  function Encoded(k: Init): seq<byte> {
    [SSH_MSG_KEXINIT] + (k.cookie + (ListsBytes(k.lists) + ([Flag(k.follows)] + BigEndian(0, 4))))
  }

  // ---------- decoding ----------

  /** n strings one after the other.  A failed read leaves NULL and decoding goes on from where
      that read stopped. */
  function ReadLists(u: seq<byte>, n: nat): (seq<Option<seq<byte>>>, seq<byte>) {
    if n == 0 then ([], u)
    else
      var (l, v) := ReadString(u);
      var (ls, w) := ReadLists(v, n - 1);
      ([l] + ls, w)
  }

  /** What kex_init_decode makes of the unread bytes, and what it leaves unread. */
  function Read(u: seq<byte>): (Option<Init>, seq<byte>) {
    if |u| < 1 then (None, u)
    else if u[0] != SSH_MSG_KEXINIT || |u| < 17 then (None, u[1..])
    else
      var (lists, v) := ReadLists(u[17..], 10);
      if |v| < 1 then (None, v)
      else if |v| < 5 then (None, v[1..])
      else (Some(Init(u[1..17], lists, v[0] != 0)), v[5..])
  }

  // ---------- the round trip ----------

  function Present(l: Option<seq<byte>>): Option<seq<byte>> { Some(ListBytes(l)) }

  function AllPresent(lists: seq<Option<seq<byte>>>): seq<Option<seq<byte>>> {
    if lists == [] then [] else [Present(lists[0])] + AllPresent(lists[1..])
  }

  lemma {:induction false} ReadListsBack(lists: seq<Option<seq<byte>>>, more: seq<byte>)
    requires forall i :: 0 <= i < |lists| ==> |ListBytes(lists[i])| < 0x1_0000_0000
    ensures ReadLists(ListsBytes(lists) + more, |lists|) == (AllPresent(lists), more)
  {
    hide ReadString, StringBytes;
    if lists == [] {
      assert ListsBytes(lists) + more == more;
    } else {
      var s, rest := ListBytes(lists[0]), ListsBytes(lists[1..]);
      assert ListsBytes(lists) + more == StringBytes(s) + (rest + more);
      StringRoundTrip(s, rest + more);
      ReadListsBack(lists[1..], more);
    }
  }

  /** Decoding undoes encoding, whatever follows; NULL lists come back as empty ones. */
  lemma RoundTrip(k: Init, more: seq<byte>)
    requires k.Valid() && k.CStrings()
    ensures Read(Encoded(k) + more) == (Some(Init(k.cookie, AllPresent(k.lists), k.follows)), more)
  {
    hide ReadLists, BigEndian, ListsBytes, AllPresent;
    var u, tail := Encoded(k) + more, [Flag(k.follows)] + BigEndian(0, 4) + more;
    ReadListsBack(k.lists, tail);
    assert u[0] == SSH_MSG_KEXINIT && u[1..17] == k.cookie;
    assert u[17..] == ListsBytes(k.lists) + tail;
    assert tail[5..] == more;
  }

  /** Every list is there. */
  predicate NoNull(lists: seq<Option<seq<byte>>>) { forall i :: 0 <= i < |lists| ==> lists[i].Some? }

  lemma {:induction false} PresentUnchanged(lists: seq<Option<seq<byte>>>)
    ensures AllPresent(lists) == lists <==> NoNull(lists)
  {
    if lists != [] {
      PresentUnchanged(lists[1..]);
      assert lists == [lists[0]] + lists[1..];
    }
  }

  /** A message is reproduced exactly when it has no NULL list. */
  lemma RoundTripExact(k: Init, more: seq<byte>)
    requires k.Valid() && k.CStrings()
    ensures Read(Encoded(k) + more) == (Some(k), more) <==> NoNull(k.lists)
  {
    RoundTrip(k, more);
    PresentUnchanged(k.lists);
    hide Encoded, Read, AllPresent;
  }

  /** The fields of an encoded message: the message number, the cookie, the lists, the flag and four
      zero bytes. */
  lemma EncodedFields(k: Init)
    ensures Encoded(k) == [20] + k.cookie + ListsBytes(k.lists) + [if k.follows then 1 else 0, 0, 0, 0, 0]
  {
    ZeroWord();
    hide ListsBytes, BigEndian;
  }

  /** A message with a first list and nine NULL ones, byte by byte. */
  lemma EncodedExample(cookie: seq<byte>)
    requires |cookie| == 16
    ensures Encoded(Init(cookie, [Some([0x61, 0x62])] + Nones(9), true))
      == [20] + cookie + ([0, 0, 0, 2, 0x61, 0x62] + Repeat(0, 36)) + [1, 0, 0, 0, 0]
  {
    hide Encoded, ListsBytes, Repeat, Nones;
    EncodedFields(Init(cookie, [Some([0x61, 0x62])] + Nones(9), true));
    FirstOfMany([0x61, 0x62], 9);
    TwoWord();
    assert [0, 0, 0, 2] + [0x61, 0x62] == [0, 0, 0, 2, 0x61, 0x62];
  }

  lemma FirstOfMany(l: seq<byte>, n: nat)
    requires |l| == 2
    ensures ListsBytes([Some(l)] + Nones(n)) == BigEndian(2, 4) + l + Repeat(0, 4 * n)
  {
    var lists := [Some(l)] + Nones(n);
    assert lists[1..] == Nones(n);
    hide BigEndian, Repeat;
    NullBytes(n);
  }

  function Nones(n: nat): (lists: seq<Option<seq<byte>>>)
    ensures |lists| == n
  {
    if n == 0 then [] else [None] + Nones(n - 1)
  }

  lemma {:induction false} NullBytes(n: nat)
    ensures ListsBytes(Nones(n)) == Repeat(0, 4 * n)
  {
    if n > 0 {
      NullBytes(n - 1);
      assert Nones(n)[1..] == Nones(n - 1);
      FourZeros(4 * n);
      hide Repeat, BigEndian;
      assert Repeat(0, 4 * n) == [0, 0, 0, 0] + Repeat(0, 4 * (n - 1));
    }
  }

  lemma TwoWord()
    ensures BigEndian(2, 4) == [0, 0, 0, 2]
  {
    assert BigEndian(0, 0) == [];
    assert BigEndian(0, 1) == [0];
    assert BigEndian(0, 2) == [0, 0];
    assert BigEndian(0, 3) == [0, 0, 0];
  }

  /** Another message number, or a message too short for its cookie, is refused. */
  lemma OthersRefused(u: seq<byte>)
    ensures |u| < 17 || u[0] != 20 ==> Read(u).0 == None
  {
    hide ReadLists;
  }

  // ---------- messages cut short ----------

  /** n strings with their lengths follow one another. */
  predicate StringsFit(u: seq<byte>, n: nat) {
    n == 0 || (|u| >= 4 && |u| - 4 >= BE(u[..4]) && StringsFit(u[4 + BE(u[..4])..], n - 1))
  }

  lemma {:induction false} ListsPresent(u: seq<byte>, n: nat)
    ensures |ReadLists(u, n).0| == n
    ensures NoNull(ReadLists(u, n).0) <==> StringsFit(u, n)
  {
    if n > 0 {
      var (l, v) := ReadString(u);
      ListsPresent(v, n - 1);
      assert ReadLists(u, n).0 == [l] + ReadLists(v, n - 1).0;
      hide BE, ReadLists, NoNull;
      NoNullFront(l, ReadLists(v, n - 1).0);
    }
  }

  lemma NoNullFront(l: Option<seq<byte>>, ls: seq<Option<seq<byte>>>)
    ensures NoNull([l] + ls) <==> l.Some? && NoNull(ls)
  {
    var all := [l] + ls;
    assert all[0] == l && all[1..] == ls;
    if NoNull(all) {
      forall i | 0 <= i < |ls| ensures ls[i].Some? { assert ls[i] == all[i + 1]; }
    }
  }

  /** A message that is accepted has a NULL list exactly when its ten strings do not fit. */
  lemma NullIff(u: seq<byte>)
    requires Read(u).0.Some?
    ensures |u| >= 17 && (NoNull(Read(u).0.value.lists) <==> StringsFit(u[17..], 10))
  {
    ListsPresent(u[17..], 10);
    hide ReadLists, StringsFit;
  }

  lemma {:induction false} ReadPrefix(u: seq<byte>, m: nat, n: nat)
    requires m <= n
    ensures |ReadLists(u, n).0| == n && |ReadLists(u, m).0| == m
    ensures ReadLists(u, n).0[..m] == ReadLists(u, m).0
    decreases m
  {
    hide ReadString;
    ListsPresent(u, n);
    ListsPresent(u, m);
    if m > 0 {
      var (l, v) := ReadString(u);
      ReadPrefix(v, m - 1, n - 1);
      assert ReadLists(u, n).0 == [l] + ReadLists(v, n - 1).0 && ReadLists(u, m).0 == [l] + ReadLists(v, m - 1).0;
    }
  }

  lemma {:induction false} ZeroStrings(n: nat)
    ensures ReadLists(Repeat(0, 4 * n + 5), n).1 == Repeat(0, 5)
  {
    if n > 0 {
      var u := Repeat(0, 4 * n + 5);
      FourZeros(4 * n + 5);
      hide BE, Repeat, BigEndian;
      ZeroStrings(n - 1);
      StringRoundTrip([], u[4..]);
      assert u == StringBytes([]) + u[4..];
    }
  }

  lemma FourZeros(n: nat)
    requires n >= 4
    ensures Repeat(0, n)[4..] == Repeat(0, n - 4) && Repeat(0, n)[..4] == [0, 0, 0, 0] == BigEndian(0, 4)
  {
    assert Repeat(0, n) == [0] + Repeat(0, n - 1);
    assert Repeat(0, n - 1) == [0] + Repeat(0, n - 2);
    assert Repeat(0, n - 2) == [0] + Repeat(0, n - 3);
    assert Repeat(0, n - 3) == [0] + Repeat(0, n - 4);
    ZeroWord();
    hide Repeat, BigEndian;
  }

  lemma ZeroWord()
    ensures BigEndian(0, 4) == [0, 0, 0, 0]
  {
    assert BigEndian(0, 0) == [];
    assert BigEndian(0, 1) == [0];
    assert BigEndian(0, 2) == [0, 0];
    assert BigEndian(0, 3) == [0, 0, 0];
  }

  /** A message cut short in its first list: 256 bytes are announced and 41 are left.  It is
      accepted, and the list is NULL. */
  lemma TruncatedAccepted(cookie: seq<byte>)
    requires |cookie| == 16
    ensures var r := Read([SSH_MSG_KEXINIT] + cookie + [0, 0, 1, 0] + Repeat(0, 41)).0;
      r.Some? && |r.value.lists| == 10 && r.value.lists[0] == None
  {
    var w, z: seq<byte> := [0, 0, 1, 0], Repeat(0, 41);
    var u := [SSH_MSG_KEXINIT] + cookie + w + z;
    assert u[17..] == w + z && (w + z)[..4] == w && (w + z)[4..] == z;
    assert BE(w) == 0x100 by { BEFour(0, 0, 1, 0); }
    ZeroStrings(9);
    hide BE, Repeat;
    ListsPresent(u[17..], 10);
    assert ReadString(w + z) == (None, z);
    assert ReadLists(w + z, 10) == ([None] + ReadLists(z, 9).0, ReadLists(z, 9).1);
  }

  // ---------- the methods ----------

  /** How many bytes the message takes. */
  function Size(k: Init): nat { |Encoded(k)| }

  lemma {:induction false} ListsSplit(lists: seq<Option<seq<byte>>>, i: nat)
    requires i < |lists|
    ensures ListsBytes(lists[i..]) == StringBytes(ListBytes(lists[i])) + ListsBytes(lists[i + 1..])
  {
    assert lists[i..][1..] == lists[i + 1..];
  }

  /** kex_init_encode, across however many buffer growths. */
  method Encode(k: Init, buf: SshBuf)
    requires k.Valid() && buf.Valid() && buf.len + Size(k) < SIZE_LIMIT
    modifies buf`data, buf`len, buf.data
    ensures buf.Valid() && buf.Contents() == old(buf.Contents()) + Encoded(k)
    ensures buf.data == old(buf.data) || fresh(buf.data)
  {
    hide ListsBytes, StringBytes, BigEndian, Flag;
    ghost var was := buf.Contents();
    buf.PutU8(SSH_MSG_KEXINIT);
    buf.PutRaw(k.cookie);
    PutLists(k.lists, buf);
    buf.PutU8(Flag(k.follows));
    buf.PutU32(0);
    FiveParts(was, [SSH_MSG_KEXINIT], k.cookie, ListsBytes(k.lists), [Flag(k.follows)], BigEndian(0, 4));
  }

  lemma FiveParts(was: seq<byte>, a: seq<byte>, b: seq<byte>, c: seq<byte>, d: seq<byte>, e: seq<byte>)
    ensures was + a + b + c + d + e == was + (a + (b + (c + (d + e))))
  {
  }

  /** The ten calls of buf_put_cstring. */
  method PutLists(lists: seq<Option<seq<byte>>>, buf: SshBuf)
    requires buf.Valid() && buf.len + |ListsBytes(lists)| < SIZE_LIMIT
    modifies buf`data, buf`len, buf.data
    ensures buf.Valid() && buf.Contents() == old(buf.Contents()) + ListsBytes(lists)
    ensures buf.data == old(buf.data) || fresh(buf.data)
  {
    hide ListsBytes;
    ghost var all := buf.Contents() + ListsBytes(lists);
    assert lists[0..] == lists;
    var i := 0;
    while i < |lists|
      invariant i <= |lists| && buf.Valid()
      invariant buf.Contents() + ListsBytes(lists[i..]) == all
      invariant buf.data == old(buf.data) || fresh(buf.data)
    {
      ghost var was := buf.Contents();
      ListsSplit(lists, i);
      assert |was| + |StringBytes(ListBytes(lists[i]))| <= |all|;
      buf.PutString(ListBytes(lists[i]));
      assert was + (StringBytes(ListBytes(lists[i])) + ListsBytes(lists[i + 1..])) == all;
      i := i + 1;
    }
    NoLists(lists[i..]);
  }

  lemma NoLists(lists: seq<Option<seq<byte>>>)
    requires lists == []
    ensures ListsBytes(lists) == []
  {
  }

  /** kex_init_decode */
  method Decode(buf: SshBuf) returns (k: Option<Init>)
    requires buf.Valid()
    modifies buf`rpos
    ensures buf.Valid() && buf.Contents() == old(buf.Contents())
    ensures (k, buf.Unread()) == Read(old(buf.Unread()))
  {
    hide ReadLists, BE;
    ghost var u := buf.Unread();
    var msg := buf.GetU8();
    if msg.None? || msg.value != SSH_MSG_KEXINIT { return None; }
    var cookie := buf.GetRaw(16);
    if cookie.None? { return None; }
    assert cookie.value == u[1..17] && buf.Unread() == u[17..];
    var lists := GetLists(buf, 10);
    ghost var v := buf.Unread();
    var follows := buf.GetU8();
    if follows.None? { return None; }
    var reserved := buf.GetU32();
    if reserved.None? { return None; }
    assert buf.Unread() == v[5..];
    k := Some(Init(cookie.value, lists, follows.value != 0));
  }

  /** n calls of buf_get_cstring, none of them checked. */
  method GetLists(buf: SshBuf, n: nat) returns (lists: seq<Option<seq<byte>>>)
    requires buf.Valid()
    modifies buf`rpos
    ensures buf.Valid() && buf.Contents() == old(buf.Contents())
    ensures (lists, buf.Unread()) == ReadLists(old(buf.Unread()), n)
  {
    hide ReadString;
    ghost var u := buf.Unread();
    lists := [];
    assert lists + ReadLists(u, n).0 == ReadLists(u, n).0;
    var i := 0;
    while i < n
      invariant i <= n && buf.Valid() && buf.Contents() == old(buf.Contents())
      invariant var r := ReadLists(buf.Unread(), n - i); (lists + r.0, r.1) == ReadLists(u, n)
    {
      ghost var v := buf.Unread();
      var l := buf.GetString();
      assert lists + ([l] + ReadLists(buf.Unread(), n - i - 1).0) == (lists + [l]) + ReadLists(buf.Unread(), n - i - 1).0;
      lists := lists + [l];
      i := i + 1;
    }
    assert lists + [] == lists;
  }
}
