/** The binary packet protocol of RFC 4253, section 6, as src/session.c decides it: what one
    send puts on the wire and what one receive makes of a byte stream.  The state of a direction
    is a value here; Session.dfy ties the mutable directions to it. */
module Packets {
  import opened Options
  import opened Bytes
  import opened StreamHash
  import opened Aes
  import opened Ctr
  import Sha256

  type Compression = Sha256.Compression

  /** The keystream of a direction: where it started and how much is used up. */
  datatype Stream = Stream(key: Schedule, iv: seq<byte>, pos: nat) {
    predicate Valid() { key.Valid() && |iv| == 16 }

    function Crypt(data: seq<byte>): (c: seq<byte>)
      requires Valid()
      ensures |c| == |data|
    {
      Crypted(key, iv, pos, data)
    }

    function After(n: nat): Stream { Stream(key, iv, pos + n) }
  }

  /** An ssh_direction_t.  An empty MAC key means no MAC. */
  datatype Direction = Direction(encrypted: bool, stream: Option<Stream>, mac: seq<byte>, number: u32) {
    predicate Valid() {
      (stream.Some? ==> stream.value.Valid()) && (encrypted ==> stream.Some?) && |mac| <= 32
    }

    /** After n bytes of keystream. */
    function Used(n: nat): Direction
      requires encrypted && stream.Some?
    {
      Direction(encrypted, Some(stream.value.After(n)), mac, number)
    }

    /** After one packet: the sequence number wraps at 2^32. */
    function Counted(): Direction { Direction(encrypted, stream, mac, (number + 1) % 0x1_0000_0000) }
  }

  const MAX_PACKET_SIZE: nat := 35000
  const MAX_PAYLOAD_SIZE: nat := 32768
  const MIN_PADDING_SIZE: nat := 4

  // ---------- sending ----------

  function Block(d: Direction): nat { if d.encrypted then 16 else 8 }

  /** Padding to a multiple of the block size, at least four bytes. */
  function PadLength(len: nat, block: nat): nat
    requires 0 < block
  {
    var pad := block - (5 + len) % block;
    if pad < 4 then pad + block else pad
  }

  /** No smaller multiple of the block size leaves room for four bytes of padding. */
  lemma PaddingRule(len: nat, block: nat)
    requires block == 8 || block == 16
    ensures 4 <= PadLength(len, block) < 4 + block && (5 + len + PadLength(len, block)) % block == 0
  {
  }

  /** packet_length || padding_length || payload || padding */
  function Packet(payload: seq<byte>, padding: seq<byte>): (p: seq<byte>)
    requires |padding| < 0x100
    ensures |p| == 5 + |payload| + |padding|
  {
    BigEndian(1 + |payload| + |padding|, 4) + ([|padding|] + (payload + padding))
  }

  /** HMAC over the sequence number and the plaintext packet (RFC 4253, section 6.4). */
  function PacketMac(f: Compression, key: seq<byte>, number: nat, packet: seq<byte>): (m: seq<byte>)
    ensures |m| == 32
  {
    Sha256.Hmac(f, key, BigEndian(number, 4) + packet)
  }

  function Tag(f: Compression, d: Direction, packet: seq<byte>): seq<byte> {
    if d.encrypted && d.mac != [] then PacketMac(f, d.mac, d.number, packet) else []
  }

  /** What one packet looks like on the wire. */
  function Wire(f: Compression, d: Direction, packet: seq<byte>): seq<byte>
    requires d.Valid()
  {
    (if d.encrypted then d.stream.value.Crypt(packet) else packet) + Tag(f, d, packet)
  }

  predicate Sendable(payload: seq<byte>) { 1 <= |payload| <= MAX_PAYLOAD_SIZE }

  /** The packet a payload becomes, padded from a supply of random bytes. */
  function PaddedPacket(d: Direction, payload: seq<byte>, random: seq<byte>): (p: seq<byte>)
    requires |random| == 19
  {
    PaddingRule(|payload|, Block(d));
    Packet(payload, random[..PadLength(|payload|, Block(d))])
  }

  /** The sender's direction once the packet is out. */
  function Sent(d: Direction, packet: seq<byte>): Direction
    requires d.Valid()
  {
    (if d.encrypted then d.Used(|packet|) else d).Counted()
  }

  // ---------- what is on the wire ----------

  /** A 32-bit number on the wire. */
  function NumberBytes(n: u32): seq<byte> { [n / 0x100_0000, n / 0x1_0000 % 0x100, n / 0x100 % 0x100, n % 0x100] }

  lemma FourBigEndian(n: u32)
    ensures BigEndian(n, 4) == NumberBytes(n)
  {
    assert BigEndian(n / 0x100_0000, 1) == [n / 0x100_0000] by { assert BigEndian(n / 0x100_0000 / 0x100, 0) == []; }
    assert BigEndian(n / 0x1_0000, 2) == BigEndian(n / 0x1_0000 / 0x100, 1) + [n / 0x1_0000 % 0x100];
    assert BigEndian(n / 0x100, 3) == BigEndian(n / 0x100 / 0x100, 2) + [n / 0x100 % 0x100];
    assert n / 0x1_0000 / 0x100 == n / 0x100_0000 && n / 0x100 / 0x100 == n / 0x1_0000;
  }

  /** Payloads of 1 to 32768 bytes are sent. */
  lemma SendableIff(payload: seq<byte>)
    ensures Sendable(payload) <==> 1 <= |payload| <= 32768
  {
  }

  /** The packet of a payload, byte by byte: its length, the padding length, the payload and the
      padding, filled up to a multiple of 8 bytes, 16 when encrypted, by as little as four bytes or
      more allow. */
  lemma PaddedPacketMeaning(d: Direction, payload: seq<byte>, random: seq<byte>)
    requires Sendable(payload) && |random| == 19
    ensures var p, block := PaddedPacket(d, payload, random), if d.encrypted then 16 else 8;
      var pad, n := |p| - 5 - |payload|, |p| - 4;
      && 4 <= pad < 4 + block && |p| % block == 0
      && p == NumberBytes(n) + [pad] + payload + random[..pad]
  {
    PaddingRule(|payload|, Block(d));
    var pad := PadLength(|payload|, Block(d));
    FourBigEndian(1 + |payload| + pad);
    hide BigEndian, PadLength;
  }

  lemma PlainWire(f: Compression, d: Direction, p: seq<byte>)
    requires d.Valid() && !d.encrypted
    ensures Wire(f, d, p) == p
  {
    hide Crypted, PacketMac;
  }

  /** An encrypted packet on the wire: the packet under the keystream, and the HMAC of sequence
      number and packet when there is a MAC key. */
  lemma WireMeaning(f: Compression, d: Direction, p: seq<byte>) returns (body: seq<byte>, tag: seq<byte>)
    requires d.Valid() && d.encrypted
    ensures Wire(f, d, p) == body + tag && |body| == |p|
    ensures var s := d.stream.value;
      forall i :: 0 <= i < |p| ==> body[i] == XorByte(p[i], Keystream(s.key, s.iv, s.pos + i))
    ensures tag == if d.mac == [] then [] else Sha256.Hmac(f, d.mac, NumberBytes(d.number) + p)
  {
    hide Keystream, BigEndian, Sha256.Hmac, XorByte;
    FourBigEndian(d.number);
    body, tag := d.stream.value.Crypt(p), Tag(f, d, p);
  }

  // ---------- receiving ----------

  /** What one receive makes of the input, what it leaves unread and the direction afterwards:
      accepted, rejected, or a padding length for which the payload length wraps below zero. */
  datatype Result =
    | Accepted(payload: seq<byte>, rest: seq<byte>, after: Direction)
    | Rejected(rest: seq<byte>, after: Direction)
    | Wrapped(rest: seq<byte>, after: Direction)

  /** The payload of a whole plaintext packet. */
  function Extract(d: Direction, pkt: seq<byte>, rest: seq<byte>): Result
    requires |pkt| >= 5
  {
    var padding: nat := pkt[4];
    if padding < MIN_PADDING_SIZE || padding + 1 >= |pkt| then Rejected(rest, d)
    else if padding + 5 > |pkt| then Wrapped(rest, d)
    else if |pkt| - 5 - padding < 1 then Rejected(rest, d)
    else Accepted(pkt[5..|pkt| - padding], rest, d.Counted())
  }

  function ReceivePlain(d: Direction, input: seq<byte>): Result {
    if |input| < 4 then Rejected([], d)
    else
      var n := BE(input[..4]);
      if n < 6 || n > MAX_PACKET_SIZE then Rejected(input[4..], d)
      else if |input| < 4 + n then Rejected([], d)
      else Extract(d, input[..4 + n], input[4 + n..])
  }

  /** The MAC check, once the packet is decrypted; d is the direction after decryption. */
  function CheckTag(f: Compression, d: Direction, pkt: seq<byte>, rest: seq<byte>): Result
    requires |pkt| >= 5
  {
    if d.mac == [] then Extract(d, pkt, rest)
    else if |rest| < 32 then Rejected([], d)
    else if PacketMac(f, d.mac, d.number, pkt) != rest[..32] then Rejected(rest[32..], d)
    else Extract(d, pkt, rest[32..])
  }

  /** One block is decrypted to learn the length, then the rest. */
  function ReceiveEncrypted(f: Compression, d: Direction, input: seq<byte>): Result
    requires d.Valid() && d.encrypted
  {
    if |input| < 16 then Rejected([], d)
    else
      var first := d.stream.value.Crypt(input[..16]);
      var n := BE(first[..4]);
      var d' := d.Used(16);
      if n < 12 || n > MAX_PACKET_SIZE || (4 + n) % 16 != 0 then Rejected(input[16..], d')
      else if |input| < 4 + n then Rejected([], d')
      else
        var pkt := first + d'.stream.value.Crypt(input[16..4 + n]);
        CheckTag(f, d.Used(4 + n), pkt, input[4 + n..])
  }

  function Receive(f: Compression, d: Direction, input: seq<byte>): Result
    requires d.Valid()
  {
    if d.encrypted then ReceiveEncrypted(f, d, input) else ReceivePlain(d, input)
  }

  // ---------- a sent packet is received ----------

  /** The length field of a packet is read back. */
  lemma LengthField(payload: seq<byte>, padding: seq<byte>)
    requires |padding| < 0x100 && |payload| <= MAX_PAYLOAD_SIZE
    ensures BE(Packet(payload, padding)[..4]) == 1 + |payload| + |padding|
  {
    var n := 1 + |payload| + |padding|;
    hide BE, BigEndian;
    assert Packet(payload, padding)[..4] == BigEndian(n, 4);
    FourBytes(n, 4);
  }

  /** What a sender of a sendable payload produces is a packet the receiver takes apart. */
  lemma ExtractPacket(d: Direction, payload: seq<byte>, padding: seq<byte>, rest: seq<byte>)
    requires Sendable(payload) && 4 <= |padding| <= 19
    ensures Extract(d, Packet(payload, padding), rest) == Accepted(payload, rest, d.Counted())
  {
    hide BigEndian;
    var p := Packet(payload, padding);
    assert p[4] == |padding|;
    assert p[5..|p| - |padding|] == payload;
  }

  /** A plaintext packet whose length field passes the checks on it. */
  predicate Framed(d: Direction, p: seq<byte>) {
    |p| >= (if d.encrypted then 16 else 10) && |p| <= 4 + MAX_PACKET_SIZE && BE(p[..4]) == |p| - 4
    && (d.encrypted ==> |p| % 16 == 0)
  }

  /** Decrypting the ciphertext in two pieces. */
  lemma TwoPieces(s: Stream, p: seq<byte>, more: seq<byte>)
    requires s.Valid() && |p| >= 16
    ensures var c := s.Crypt(p) + more;
      && s.Crypt(c[..16]) == p[..16]
      && s.Crypt(c[..16]) + s.After(16).Crypt(c[16..|p|]) == p
      && c[|p|..] == more
  {
    hide Crypted;
    CryptedAppend(s.key, s.iv, s.pos, p[..16], p[16..]);
    assert p[..16] + p[16..] == p;
    var c := s.Crypt(p) + more;
    assert c[..16] == s.Crypt(p[..16]) && c[16..|p|] == s.After(16).Crypt(p[16..]);
    CryptedTwice(s.key, s.iv, s.pos, p[..16]);
    CryptedTwice(s.key, s.iv, s.pos + 16, p[16..]);
  }

  lemma CheckOwnTag(f: Compression, d: Direction, after: Direction, p: seq<byte>, more: seq<byte>)
    requires d.encrypted && |p| >= 5 && after.mac == d.mac && after.number == d.number
    ensures CheckTag(f, after, p, Tag(f, d, p) + more) == Extract(after, p, more)
  {
    hide PacketMac, Extract;
    if d.mac != [] {
      var t := Tag(f, d, p);
      assert (t + more)[..32] == t && (t + more)[32..] == more;
    } else {
      assert Tag(f, d, p) + more == more;
    }
  }

  lemma ReceiveFramedPlain(f: Compression, d: Direction, p: seq<byte>, more: seq<byte>)
    requires d.Valid() && !d.encrypted && Framed(d, p)
    ensures Receive(f, d, Wire(f, d, p) + more) == Extract(d, p, more)
  {
    hide BE, Extract;
    NoTag(f, d, p);
    assert Wire(f, d, p) == p;
    assert (p + more)[..4] == p[..4] && (p + more)[..|p|] == p && (p + more)[|p|..] == more;
  }

  /** Whatever follows the ciphertext of a framed packet, the tag check decides. */
  lemma ReceiveTagged(f: Compression, d: Direction, p: seq<byte>, tail: seq<byte>)
    requires d.Valid() && d.encrypted && Framed(d, p)
    ensures Receive(f, d, d.stream.value.Crypt(p) + tail) == CheckTag(f, d.Used(|p|), p, tail)
  {
    hide BE, Extract, CheckTag, Crypted;
    TwoPieces(d.stream.value, p, tail);
    assert p[..16][..4] == p[..4];
  }

  lemma ReceiveFramedEncrypted(f: Compression, d: Direction, p: seq<byte>, more: seq<byte>)
    requires d.Valid() && d.encrypted && Framed(d, p)
    ensures Receive(f, d, Wire(f, d, p) + more) == Extract(d.Used(|p|), p, more)
  {
    hide Framed, Receive, Extract, CheckTag, Crypted, Tag;
    var s, t := d.stream.value, Tag(f, d, p);
    assert Wire(f, d, p) + more == s.Crypt(p) + (t + more);
    ReceiveTagged(f, d, p, t + more);
    FramedLength(d, p);
    CheckOwnTag(f, d, d.Used(|p|), p, more);
  }

  lemma FramedLength(d: Direction, p: seq<byte>)
    requires Framed(d, p)
    ensures |p| >= 10
  {
    hide BE;
  }

  /** A packet under one sequence number is accepted at another only if the HMACs of two different
      strings coincide. */
  lemma NumbersAuthenticated(f: Compression, d: Direction, m: u32, p: seq<byte>, more: seq<byte>)
    requires d.Valid() && d.encrypted && d.mac != [] && Framed(d, p) && m != d.number
    requires Receive(f, d, Wire(f, d.(number := m), p) + more).Accepted?
    ensures var x, y := BigEndian(d.number, 4) + p, BigEndian(m, 4) + p;
      x != y && Sha256.Hmac(f, d.mac, x) == Sha256.Hmac(f, d.mac, y)
  {
    hide Framed, Receive, Extract, Crypted, BE, BigEndian, Sha256.Hmac;
    var e, s := d.(number := m), d.stream.value;
    var t := PacketMac(f, d.mac, m, p);
    assert Wire(f, e, p) + more == s.Crypt(p) + (t + more);
    ReceiveTagged(f, d, p, t + more);
    FramedLength(d, p);
    assert (t + more)[..32] == t;
    NumbersDiffer(d.number, m, p);
  }

  lemma NumbersDiffer(n: u32, m: u32, p: seq<byte>)
    requires n != m
    ensures BigEndian(n, 4) + p != BigEndian(m, 4) + p
  {
    FourBytes(n, 4);
    FourBytes(m, 4);
    hide BE, BigEndian;
    assert (BigEndian(n, 4) + p)[..4] == BigEndian(n, 4) && (BigEndian(m, 4) + p)[..4] == BigEndian(m, 4);
  }

  /** The direction once a packet's keystream is used up. */
  function Decrypted(d: Direction, p: seq<byte>): Direction
    requires d.Valid()
  {
    if d.encrypted then d.Used(|p|) else d
  }

  /** What the holder of the keys puts on the wire, the receiver takes off it: only the padding
      and payload lengths are left to check, whatever follows. */
  lemma ReceiveFramed(f: Compression, d: Direction, p: seq<byte>, more: seq<byte>)
    requires d.Valid() && Framed(d, p)
    ensures Receive(f, d, Wire(f, d, p) + more) == Extract(Decrypted(d, p), p, more)
  {
    hide Extract, Framed, Wire, Receive;
    if d.encrypted { ReceiveFramedEncrypted(f, d, p, more); } else { ReceiveFramedPlain(f, d, p, more); }
  }

  /** Whatever direction state the two ends share, whatever the padding bytes and whatever
      follows on the wire, the receiver accepts the packet, returns the payload, and ends in the
      sender's state. */
  lemma ReceiveSent(f: Compression, d: Direction, payload: seq<byte>, random: seq<byte>, more: seq<byte>)
    requires d.Valid() && Sendable(payload) && |random| == 19
    ensures var p := PaddedPacket(d, payload, random);
      Receive(f, d, Wire(f, d, p) + more) == Accepted(payload, more, Sent(d, p))
  {
    var padding := random[..PadLength(|payload|, Block(d))];
    PaddingRule(|payload|, Block(d));
    LengthField(payload, padding);
    hide Receive, PadLength, Packet, Crypted, Wire, BE, Extract;
    ReceiveFramed(f, d, Packet(payload, padding), more);
    ExtractPacket(Decrypted(d, Packet(payload, padding)), payload, padding, more);
  }

  // ---------- only sent packets are received ----------

  /** A whole packet that Extract accepts is the packet of its payload and padding. */
  lemma ExtractedIsPacket(d: Direction, pkt: seq<byte>, rest: seq<byte>) returns (padding: seq<byte>)
    requires |pkt| >= 5 && BE(pkt[..4]) + 4 == |pkt| && Extract(d, pkt, rest).Accepted?
    ensures var r := Extract(d, pkt, rest);
      && 4 <= |padding| < 0x100 && pkt == Packet(r.payload, padding) && r.payload != []
      && r.rest == rest && r.after == d.Counted()
  {
    hide BE, BigEndian;
    padding := pkt[|pkt| - pkt[4]..];
    BigEndianBE(pkt[..4]);
    assert pkt == pkt[..4] + ([pkt[4]] + (pkt[5..|pkt| - pkt[4]] + padding));
  }

  lemma CheckedIsTagged(f: Compression, d: Direction, after: Direction, pkt: seq<byte>, rest: seq<byte>)
    requires d.encrypted && |pkt| >= 5 && after.mac == d.mac && after.number == d.number
    requires CheckTag(f, after, pkt, rest).Accepted?
    ensures var t := Tag(f, d, pkt);
      |t| <= |rest| && rest[..|t|] == t && CheckTag(f, after, pkt, rest) == Extract(after, pkt, rest[|t|..])
  {
    hide PacketMac, Extract;
  }

  /** The ciphertext that decrypts, in two pieces, to p. */
  lemma TwoPiecesBack(s: Stream, c: seq<byte>)
    requires s.Valid() && |c| >= 16
    ensures var p := s.Crypt(c[..16]) + s.After(16).Crypt(c[16..]); s.Crypt(p) == c
  {
    hide Crypted;
    CryptedAppend(s.key, s.iv, s.pos, s.Crypt(c[..16]), s.After(16).Crypt(c[16..]));
    CryptedTwice(s.key, s.iv, s.pos, c[..16]);
    CryptedTwice(s.key, s.iv, s.pos + 16, c[16..]);
    assert c[..16] + c[16..] == c;
  }

  /** Accepting means that the input begins with the wire form, under this direction's keys and
      sequence number, of the packet of exactly the payload returned. */
  lemma AcceptedIsSent(f: Compression, d: Direction, input: seq<byte>) returns (padding: seq<byte>)
    requires d.Valid() && Receive(f, d, input).Accepted?
    ensures var r := Receive(f, d, input);
      && 4 <= |padding| < 0x100 && r.payload != []
      && (var p := Packet(r.payload, padding);
          Framed(d, p) && input == Wire(f, d, p) + r.rest && r.after == Sent(d, p))
  {
    hide BE, Extract, CheckTag, Crypted, Tag, Packet;
    if d.encrypted {
      padding := AcceptedEncrypted(f, d, input);
    } else {
      var n := BE(input[..4]);
      var pkt := input[..4 + n];
      assert pkt[..4] == input[..4];
      padding := ExtractedIsPacket(d, pkt, input[4 + n..]);
      assert input == pkt + input[4 + n..];
      NoTag(f, d, pkt);
    }
  }

  lemma NoTag(f: Compression, d: Direction, pkt: seq<byte>)
    requires !d.encrypted
    ensures Tag(f, d, pkt) == []
  {
  }

  lemma AcceptedEncrypted(f: Compression, d: Direction, input: seq<byte>) returns (padding: seq<byte>)
    requires d.Valid() && d.encrypted && ReceiveEncrypted(f, d, input).Accepted?
    ensures var r := ReceiveEncrypted(f, d, input);
      && 4 <= |padding| < 0x100 && r.payload != []
      && (var p := Packet(r.payload, padding);
          Framed(d, p) && input == Wire(f, d, p) + r.rest && r.after == d.Used(|p|).Counted())
  {
    hide BE, Extract, CheckTag, Crypted, Tag, Packet;
    var s := d.stream.value;
    var first := s.Crypt(input[..16]);
    var n := BE(first[..4]);
    var c, rest := input[..4 + n], input[4 + n..];
    assert c[..16] == input[..16] && c[16..] == input[16..4 + n];
    var pkt := first + s.After(16).Crypt(c[16..]);
    TwoPiecesBack(s, c);
    assert pkt[..4] == first[..4];
    CheckedIsTagged(f, d, d.Used(4 + n), pkt, rest);
    var t := Tag(f, d, pkt);
    padding := ExtractedIsPacket(d.Used(4 + n), pkt, rest[|t|..]);
    assert input == c + (t + rest[|t|..]);
    assert c + (t + rest[|t|..]) == (c + t) + rest[|t|..];
  }

  /** What a packet must be to be accepted: at most 35000 bytes after its length field, whole cipher
      blocks when encrypted, and a padding length of four or more that leaves a payload. */
  predicate Acceptable(d: Direction, p: seq<byte>) {
    |p| >= 10 && BE(p[..4]) == |p| - 4 <= 35000 && (d.encrypted ==> |p| % 16 == 0)
    && 4 <= p[4] as nat <= |p| - 6
  }

  /** Over all direction states and inputs: a packet is accepted exactly when the input starts with
      the wire form of an acceptable one.  Whatever is refused does not count. */
  lemma AcceptedIff(f: Compression, d: Direction, input: seq<byte>)
    requires d.Valid()
    ensures Receive(f, d, input).Accepted? <==> exists p, rest :: Acceptable(d, p) && input == Wire(f, d, p) + rest
    ensures !Receive(f, d, input).Accepted? ==> Receive(f, d, input).after.number == d.number
  {
    hide BE, Wire, Crypted, CheckTag, PacketMac;
    if Receive(f, d, input).Accepted? {
      var padding := AcceptedIsSent(f, d, input);
      var r := Receive(f, d, input);
      var p := Packet(r.payload, padding);
      assert p[4] == |padding|;
      assert Acceptable(d, p) && input == Wire(f, d, p) + r.rest;
    }
    if p, rest :| Acceptable(d, p) && input == Wire(f, d, p) + rest {
      ReceiveFramed(f, d, p, rest);
    }
    if !Receive(f, d, input).Accepted? { RefusedNotCounted(f, d, input); }
  }

  lemma RefusedNotCounted(f: Compression, d: Direction, input: seq<byte>)
    requires d.Valid() && !Receive(f, d, input).Accepted?
    ensures Receive(f, d, input).after.number == d.number
  {
    hide BE, Crypted, PacketMac;
  }

  // ---------- the payload length ----------

  /** The guard lets a padding length up to total - 2 through; the subtraction total - 5 - padding
      needs it to be at most total - 5.  n is the packet length, total - 4. */
  predicate InGap(padding: nat, n: nat) { n <= padding <= n + 2 }

  predicate TagMatches(f: Compression, d: Direction, pkt: seq<byte>, rest: seq<byte>) {
    d.mac == [] || (|rest| >= 32 && PacketMac(f, d.mac, d.number, pkt) == rest[..32])
  }

  /** The input starts with a whole packet, authentic where that is checked, with its padding
      length in the gap. */
  predicate StartsInGap(f: Compression, d: Direction, input: seq<byte>)
    requires d.Valid()
  {
    if !d.encrypted then
      |input| >= 4 &&
      var n := BE(input[..4]);
      6 <= n <= MAX_PACKET_SIZE && |input| >= 4 + n && InGap(input[4], n)
    else
      |input| >= 16 &&
      var first := d.stream.value.Crypt(input[..16]);
      var n := BE(first[..4]);
      12 <= n <= MAX_PACKET_SIZE && (4 + n) % 16 == 0 && |input| >= 4 + n && InGap(first[4], n) &&
      TagMatches(f, d, first + d.stream.value.After(16).Crypt(input[16..4 + n]), input[4 + n..])
  }

  lemma ExtractWraps(d: Direction, pkt: seq<byte>, rest: seq<byte>)
    requires |pkt| >= 10
    ensures Extract(d, pkt, rest).Wrapped? <==> InGap(pkt[4], |pkt| - 4)
  {
  }

  lemma TagThenWraps(f: Compression, d: Direction, pkt: seq<byte>, rest: seq<byte>)
    requires |pkt| >= 10
    ensures CheckTag(f, d, pkt, rest).Wrapped? <==> TagMatches(f, d, pkt, rest) && InGap(pkt[4], |pkt| - 4)
  {
    hide PacketMac, Extract, InGap;
    ExtractWraps(d, pkt, rest);
    if d.mac != [] && |rest| >= 32 { ExtractWraps(d, pkt, rest[32..]); }
  }

  /** Over all direction states and all inputs, the payload length wraps exactly on inputs that
      start with a packet in the gap. */
  lemma WrapsIff(f: Compression, d: Direction, input: seq<byte>)
    requires d.Valid()
    ensures Receive(f, d, input).Wrapped? <==> StartsInGap(f, d, input)
  {
    hide BE, Extract, CheckTag, Crypted, InGap, TagMatches;
    if !d.encrypted {
      if |input| >= 4 {
        var n := BE(input[..4]);
        if 6 <= n <= MAX_PACKET_SIZE && |input| >= 4 + n { ExtractWraps(d, input[..4 + n], input[4 + n..]); }
      }
    } else if |input| >= 16 {
      WrapsEncrypted(f, d, input);
    }
  }

  lemma WrapsEncrypted(f: Compression, d: Direction, input: seq<byte>)
    requires d.Valid() && d.encrypted && |input| >= 16
    ensures ReceiveEncrypted(f, d, input).Wrapped? <==> StartsInGap(f, d, input)
  {
    hide BE, Extract, CheckTag, Crypted, InGap, PacketMac;
    var first := d.stream.value.Crypt(input[..16]);
    var n := BE(first[..4]);
    if 12 <= n <= MAX_PACKET_SIZE && (4 + n) % 16 == 0 && |input| >= 4 + n {
      var pkt := first + d.stream.value.After(16).Crypt(input[16..4 + n]);
      assert pkt[4] == first[4];
      TagThenWraps(f, d.Used(4 + n), pkt, input[4 + n..]);
    }
  }

  /** Every framed packet in the gap, sent by a holder of the keys, gets there, MAC or not. */
  lemma GapPacketWraps(f: Compression, d: Direction, p: seq<byte>, more: seq<byte>)
    requires d.Valid() && Framed(d, p) && InGap(p[4], |p| - 4)
    ensures Receive(f, d, Wire(f, d, p) + more) == Wrapped(more, Decrypted(d, p))
  {
    hide Receive, Wire, BE;
    ReceiveFramed(f, d, p, more);
  }

  /** The shortest packet the header checks let through, for either kind of direction. */
  lemma WrapExample(f: Compression, d: Direction, more: seq<byte>)
    requires d.Valid()
    ensures var n: byte := if d.encrypted then 12 else 6;
      Receive(f, d, Wire(f, d, [0, 0, 0, n, n] + Repeat(0, n - 1)) + more).Wrapped?
  {
    var n: byte := if d.encrypted then 12 else 6;
    var p: seq<byte> := [0, 0, 0, n, n] + Repeat(0, n - 1);
    assert p[..4] == [0, 0, 0, n];
    SmallLength(n);
    hide Receive, Wire, BE, Repeat;
    GapPacketWraps(f, d, p, more);
  }

  lemma SmallLength(n: byte)
    ensures BE([0, 0, 0, n]) == n as nat
  {
    BEAppend([], 0);
    BEAppend([0], 0);
    BEAppend([0, 0], 0);
    BEAppend([0, 0, 0], n);
    assert [] + [0] == [0] && [0] + [0] == [0, 0] && [0, 0] + [0] == [0, 0, 0] && [0, 0, 0] + [n] == [0, 0, 0, n];
    assert BE([]) == 0;
    hide BE;
  }
}
